/**
 * What get_operator does on the operator table in particular: the kind it
 * returns prints as the characters it consumed, an operator followed by a
 * character no operator contains is taken whole, and the two places where
 * the scan departs from plain maximal munch, at the end of the input and in
 * what it pushes back, shown on concrete inputs.
 */
module OperatorScan {
  import opened Options
  import opened Tokens
  import opened Lookup
  import opened TokenTables
  import opened Streams
  import opened Scanner

  /** The character codes that occur in operator spellings: ! % & ( ) * + , - / : ; < = > ? [ \ ] ^ { | } ~ */
  predicate OperatorCharacter(c: int) {
    c == '!' as int || c == '%' as int || c == '&' as int || c == '(' as int ||
    c == ')' as int || c == '*' as int || c == '+' as int || c == ',' as int ||
    c == '-' as int || c == '/' as int || c == ':' as int || c == ';' as int ||
    c == '<' as int || c == '=' as int || c == '>' as int || c == '?' as int ||
    c == '[' as int || c == '\\' as int || c == ']' as int || c == '^' as int ||
    c == '{' as int || c == '|' as int || c == '}' as int || c == '~' as int
  }

  // Operator spellings consist of operator characters, stated over small
  // windows of positions so that each proof stays cheap.

  lemma OperatorCharactersFrom0()
    ensures forall i, j | 0 <= i < 15 && 0 <= j < |OperatorEntry(i).0| :: OperatorCharacter(OperatorEntry(i).0[j] as int)
  {
  }

  lemma OperatorCharactersFrom15()
    ensures forall i, j | 15 <= i < 30 && 0 <= j < |OperatorEntry(i).0| :: OperatorCharacter(OperatorEntry(i).0[j] as int)
  {
  }

  lemma OperatorCharactersFrom30()
    ensures forall i, j | 30 <= i < 45 && 0 <= j < |OperatorEntry(i).0| :: OperatorCharacter(OperatorEntry(i).0[j] as int)
  {
  }

  /** Every character of every operator spelling is an operator character. */
  lemma OperatorCharacters()
    ensures forall i, j | 0 <= i < |OperatorTokenMap()| && 0 <= j < |OperatorTokenMap()[i].0| ::
      OperatorCharacter(OperatorTokenMap()[i].0[j] as int)
  {
    OperatorTableEntries();
    OperatorCharactersFrom0();
    OperatorCharactersFrom15();
    OperatorCharactersFrom30();
  }

  /** The stop position of the scan over the operator table. */
  ghost function OperatorStop(s: seq<int>): nat {
    OperatorTableScannable();
    StopIndex(OperatorTokenMap(), s)
  }

  /** The length of the spelling the scan over the operator table takes. */
  ghost function OperatorLongest(s: seq<int>): nat {
    OperatorTableScannable();
    Longest(OperatorTokenMap(), s, true)
  }

  /** The kind the scan over the operator table returns. */
  ghost function OperatorMunch(s: seq<int>): Option<ReservedToken> {
    OperatorTableScannable();
    Munch(OperatorTokenMap(), s)
  }

  /**
   * get_operator returns a kind exactly when it takes a spelling of positive
   * length, and the spelling it takes ends before the input does.
   */
  lemma MunchMeansTaken(s: seq<int>)
    ensures OperatorMunch(s).Some? <==> OperatorLongest(s) > 0
    ensures OperatorLongest(s) == 0 || OperatorLongest(s) < |s|
  {
    OperatorTableScannable();
    MunchSpelling(OperatorTokenMap(), s);
  }

  /** Printing the kind get_operator returns gives back exactly the characters it took from the input. */
  lemma MunchPrintsAsTaken(s: seq<int>)
    requires OperatorMunch(s).Some?
    ensures OperatorLongest(s) < |s|
    ensures Values(TokenString(OperatorMunch(s).value)) == s[..OperatorLongest(s)]
  {
    var t := OperatorTokenMap();
    OperatorTableScannable();
    MunchSpelling(t, s);
    var i :| 0 <= i < |t| && t[i].1 == OperatorMunch(s).value && Values(t[i].0) == s[..OperatorLongest(s)];
    assert TokenString(t[i].1) == t[i].0 by {
      PrintedSpelling();
    }
  }

  /**
   * A value at position k that occurs in no operator spelling ends every
   * candidate spelling: the scan stops by position k + 1 and takes at most
   * k characters.
   */
  lemma StopsAtForeign(s: seq<int>, k: nat)
    requires k < |s| && !OperatorCharacter(s[k])
    ensures OperatorStop(s) <= k + 1 && OperatorLongest(s) <= k
  {
    var t := OperatorTokenMap();
    OperatorTableScannable();
    OperatorCharacters();
    forall i | 0 <= i < |t|
      ensures !Begins(t[i].0, s, k + 1)
    {
      assert k < |t[i].0| ==> OperatorCharacter(t[i].0[k] as int);
    }
  }

  /**
   * Maximal munch before a foreign character: an operator spelling at the
   * front of s followed by a character that occurs in no operator spelling
   * is taken whole, and its kind returned.
   */
  lemma TakenWhole(s: seq<int>, i: nat)
    requires i < |OperatorTokenMap()| && |OperatorTokenMap()[i].0| < |s|
    requires Begins(OperatorTokenMap()[i].0, s, |OperatorTokenMap()[i].0|)
    requires 0 <= s[|OperatorTokenMap()[i].0|] && !OperatorCharacter(s[|OperatorTokenMap()[i].0|])
    ensures OperatorLongest(s) == |OperatorTokenMap()[i].0|
    ensures OperatorMunch(s) == Some(OperatorTokenMap()[i].1)
  {
    var t := OperatorTokenMap();
    OperatorTableScannable();
    StopsAtForeign(s, |t[i].0|);
    SpelledKindIs(t, s, |t[i].0|, i);
  }

  /** Input starting with a character that occurs in no operator spelling gives no operator. */
  lemma ForeignFirstGivesNone(s: seq<int>)
    requires |s| > 0 && !OperatorCharacter(s[0])
    ensures OperatorMunch(s) == None
  {
    StopsAtForeign(s, 0);
    MunchMeansTaken(s);
  }

  /**
   * The end-of-input quirk: an operator spelling that makes up the whole
   * input is never returned as itself.  The scan gives a shorter operator
   * or none.
   */
  lemma WholeInputNotItself(i: nat)
    requires i < |OperatorTokenMap()|
    ensures OperatorLongest(Values(OperatorTokenMap()[i].0)) < |OperatorTokenMap()[i].0|
    ensures OperatorMunch(Values(OperatorTokenMap()[i].0)) != Some(OperatorTokenMap()[i].1)
  {
    var t := OperatorTokenMap();
    var s := Values(t[i].0);
    OperatorTableScannable();
    MunchSpelling(t, s);
    if OperatorMunch(s) == Some(t[i].1) {
      var j :| 0 <= j < |t| && t[j].1 == t[i].1 && |t[j].0| == OperatorLongest(s) && Begins(t[j].0, s, |t[j].0|);
      KindSlots();
      assert false;
    }
  }

  // Concrete inputs where a character follows the operator.

  lemma ShiftlAssignBeforeLetter()
    ensures OperatorMunch(Values("<<=x")) == Some(ShiftlAssign)
  {
    assert OperatorTokenMap()[24] == ("<<=", ShiftlAssign);
    TakenWhole(Values("<<=x"), 24);
  }

  lemma LeBeforeLetter()
    ensures OperatorMunch(Values("<=x")) == Some(Le)
  {
    assert OperatorTokenMap()[25] == ("<=", Le);
    TakenWhole(Values("<=x"), 25);
  }

  lemma LtBeforeLetter()
    ensures OperatorMunch(Values("<x")) == Some(Lt)
  {
    assert OperatorTokenMap()[22] == ("<", Lt);
    TakenWhole(Values("<x"), 22);
  }

  /** A dot occurs in no operator spelling, so it ends the operator before it. */
  lemma LtBeforeDot()
    ensures OperatorMunch(Values("<.")) == Some(Lt)
  {
    assert OperatorTokenMap()[22] == ("<", Lt);
    TakenWhole(Values("<."), 22);
  }

  lemma AtSignGivesNone()
    ensures OperatorMunch(Values("@x")) == None
  {
    ForeignFirstGivesNone(Values("@x"));
  }

  // Concrete inputs that end with the operator.

  /** "<" alone gives no operator. */
  lemma LtAtEndGivesNone()
    ensures OperatorMunch(Values("<")) == None
  {
    assert OperatorTokenMap()[22] == ("<", Lt);
    WholeInputNotItself(22);
    MunchMeansTaken(Values("<"));
  }

  /** "<<=" alone gives shiftl, not shiftl_assign: the scan takes two characters. */
  lemma ShiftlAssignAtEndGivesShiftl()
    ensures OperatorMunch(Values("<<=")) == Some(Shiftl) && OperatorLongest(Values("<<=")) == 2
  {
    var t := OperatorTokenMap();
    var s := Values("<<=");
    OperatorTableScannable();
    assert t[23] == ("<<", Shiftl) && t[24] == ("<<=", ShiftlAssign);
    WholeInputNotItself(24);
    assert Begins(t[23].0, s, 2) && At(s, 2) >= 0;
    SpelledKindIs(t, s, 2, 23);
  }

  /**
   * On "<<=" alone the scan stops at position 3, where the input ends, and
   * pushes the end-of-input value back twice, so the '=' is lost.
   */
  lemma ShiftlAssignAtEndPushBack()
    ensures var s := Values("<<=");
      OperatorStop(s) == 3 && Repeat(At(s, 3), 3 + 1 - OperatorLongest(s)) + Drop(s, 3 + 1) == Repeat(EndOfInput, 2)
  {
    var s := Values("<<=");
    ShiftlAssignAtEndGivesShiftl();
    OperatorTableScannable();
    DropAll(s, 4);
  }

  /**
   * The push-back quirk: on "<<b;" the scan returns shiftl, reads up to the
   * ';' and pushes that ';' back twice, so the 'b' it read is lost and the
   * stream goes on with two ';' and nothing else.
   */
  lemma PushBackExample()
    ensures var s := Values("<<b;");
      OperatorMunch(s) == Some(Shiftl) && OperatorStop(s) == 3 && OperatorLongest(s) == 2 &&
      Repeat(At(s, 3), 3 + 1 - 2) + Drop(s, 3 + 1) == Repeat(';' as int, 2)
  {
    var s := Values("<<b;");
    assert OperatorTokenMap()[23] == ("<<", Shiftl);
    TakenWhole(s, 23);
    StopsAtForeign(s, 2);
    DropAll(s, 4);
    assert At(s, 3) == ';' as int;
  }
}
