/**
 * The three symbol tables of source/tokens.cpp, the kind-to-spelling printer
 * and the exact keyword lookup.
 *
 * A lookup keeps its entries in increasing key order; the two spelling
 * tables are written here in that storage order, one entry per position.
 */
module TokenTables {
  import opened Options
  import opened Tokens
  import opened Lookup

  const OperatorCount: nat := 45
  const KeywordCount: nat := 17

  /** Position i of the operator lookup's storage (the last entry stands for every later position). */
  function OperatorEntry(i: nat): (string, ReservedToken) {
    match i
    case 0 => ("!", LogicalNot)
    case 1 => ("!=", Ne)
    case 2 => ("%", Mod)
    case 3 => ("%=", ModAssign)
    case 4 => ("&", BitwiseAnd)
    case 5 => ("&&", LogicalAnd)
    case 6 => ("&=", AndAssign)
    case 7 => ("(", OpenRound)
    case 8 => (")", CloseRound)
    case 9 => ("*", Mul)
    case 10 => ("*=", MulAssign)
    case 11 => ("+", Add)
    case 12 => ("++", Inc)
    case 13 => ("+=", AddAssign)
    case 14 => (",", Comma)
    case 15 => ("-", Sub)
    case 16 => ("--", Dec)
    case 17 => ("-=", SubAssign)
    case 18 => ("/", Div)
    case 19 => ("/=", DivAssign)
    case 20 => (":", Colon)
    case 21 => (";", Semicolon)
    case 22 => ("<", Lt)
    case 23 => ("<<", Shiftl)
    case 24 => ("<<=", ShiftlAssign)
    case 25 => ("<=", Le)
    case 26 => ("=", Assign)
    case 27 => ("==", Eq)
    case 28 => (">", Gt)
    case 29 => (">=", Ge)
    case 30 => (">>", Shiftr)
    case 31 => (">>=", ShiftrAssign)
    case 32 => ("?", Question)
    case 33 => ("[", OpenSquare)
    case 34 => ("\\", Idiv)
    case 35 => ("\\=", IdivAssign)
    case 36 => ("]", CloseSquare)
    case 37 => ("^", BitwiseXor)
    case 38 => ("^=", XorAssign)
    case 39 => ("{", OpenCurly)
    case 40 => ("|", BitwiseOr)
    case 41 => ("|=", OrAssign)
    case 42 => ("||", LogicalOr)
    case 43 => ("}", CloseCurly)
    case _ => ("~", BitwiseNot)
  }

  /** The operator and punctuation table, as its lookup stores it. */
  function OperatorTokenMap(): (r: Table<string, ReservedToken>)
    ensures |r| == 45
  {
    seq(OperatorCount, i requires 0 <= i => OperatorEntry(i))
  }

  /** Position i of the keyword lookup's storage (the last entry stands for every later position). */
  function KeywordEntry(i: nat): (string, ReservedToken) {
    match i
    case 0 => ("break", KwBreak)
    case 1 => ("case", KwCase)
    case 2 => ("continue", KwContinue)
    case 3 => ("default", KwDefault)
    case 4 => ("do", KwDo)
    case 5 => ("elif", KwElif)
    case 6 => ("else", KwElse)
    case 7 => ("for", KwFor)
    case 8 => ("fun", KwFun)
    case 9 => ("if", KwIf)
    case 10 => ("number", KwNumber)
    case 11 => ("return", KwReturn)
    case 12 => ("string", KwString)
    case 13 => ("switch", KwSwitch)
    case 14 => ("var", KwVar)
    case 15 => ("void", KwVoid)
    case _ => ("while", KwWhile)
  }

  /** The keyword table, as its lookup stores it. */
  function KeywordTokenMap(): (r: Table<string, ReservedToken>)
    ensures |r| == 17
  {
    seq(KeywordCount, i requires 0 <= i => KeywordEntry(i))
  }

  /** Each entry turned round, in the same order: the builder's emplace_back(p.second, p.first). */
  function Swapped<K, V>(t: Table<K, V>): (r: Table<V, K>)
    ensures |r| == |t|
    ensures forall i | 0 <= i < |t| :: r[i] == (t[i].1, t[i].0)
  {
    seq(|t|, i requires 0 <= i < |t| => (t[i].1, t[i].0))
  }

  /**
   * The kind-to-spelling table: every operator entry turned round, then
   * every keyword entry turned round, each table walked in its storage order.
   */
  function TokenStringMap(): (r: Table<ReservedToken, string>)
    ensures |r| == |OperatorTokenMap()| + |KeywordTokenMap()|
  {
    Swapped(OperatorTokenMap()) + Swapped(KeywordTokenMap())
  }

  /** The operator table holds exactly the operator entries, position by position. */
  lemma OperatorTableEntries()
    ensures |OperatorTokenMap()| == OperatorCount
    ensures forall i | 0 <= i < OperatorCount :: OperatorTokenMap()[i] == OperatorEntry(i)
  {
  }

  /** The keyword table holds exactly the keyword entries, position by position. */
  lemma KeywordTableEntries()
    ensures |KeywordTokenMap()| == KeywordCount
    ensures forall i | 0 <= i < KeywordCount :: KeywordTokenMap()[i] == KeywordEntry(i)
  {
  }

  // Neighbouring operator entries are in increasing spelling order, stated
  // over small windows of positions so that each proof stays cheap.

  lemma OperatorEntriesOrderedFrom0()
    ensures forall i | 0 <= i < 8 :: StrLess(OperatorEntry(i).0, OperatorEntry(i + 1).0)
  {
  }

  lemma OperatorEntriesOrderedFrom8()
    ensures forall i | 8 <= i < 16 :: StrLess(OperatorEntry(i).0, OperatorEntry(i + 1).0)
  {
  }

  lemma OperatorEntriesOrderedFrom16()
    ensures forall i | 16 <= i < 24 :: StrLess(OperatorEntry(i).0, OperatorEntry(i + 1).0)
  {
  }

  lemma OperatorEntriesOrderedFrom24()
    ensures forall i | 24 <= i < 32 :: StrLess(OperatorEntry(i).0, OperatorEntry(i + 1).0)
  {
  }

  lemma OperatorEntriesOrderedFrom32()
    ensures forall i | 32 <= i < 40 :: StrLess(OperatorEntry(i).0, OperatorEntry(i + 1).0)
  {
  }

  lemma OperatorEntriesOrderedFrom40()
    ensures forall i | 40 <= i < 44 :: StrLess(OperatorEntry(i).0, OperatorEntry(i + 1).0)
  {
  }

  /** Neighbouring keyword entries are in increasing spelling order. */
  lemma KeywordEntriesOrdered()
    ensures forall i | 0 <= i < KeywordCount - 1 :: StrLess(KeywordEntry(i).0, KeywordEntry(i + 1).0)
  {
  }

  /** The operator table is in strictly increasing spelling order, so no spelling repeats. */
  lemma OperatorTableSorted()
    ensures KeySorted(OperatorTokenMap()) && DistinctKeys(OperatorTokenMap())
  {
    OperatorTableEntries();
    OperatorEntriesOrderedFrom0();
    OperatorEntriesOrderedFrom8();
    OperatorEntriesOrderedFrom16();
    OperatorEntriesOrderedFrom24();
    OperatorEntriesOrderedFrom32();
    OperatorEntriesOrderedFrom40();
    KeyOrderedIsSorted(OperatorTokenMap());
  }

  /** The keyword table is in strictly increasing spelling order, so no spelling repeats. */
  lemma KeywordTableSorted()
    ensures KeySorted(KeywordTokenMap()) && DistinctKeys(KeywordTokenMap())
  {
    KeywordTableEntries();
    KeywordEntriesOrdered();
    KeyOrderedIsSorted(KeywordTokenMap());
  }

  /** Every operator spelling is one to three characters long. */
  lemma OperatorSpellingLengths()
    ensures forall i | 0 <= i < |OperatorTokenMap()| :: 1 <= |OperatorTokenMap()[i].0| <= 3
  {
  }

  /** The position each kind takes in TokenStringMap(): a proof device for the reverse table. */
  ghost function KindSlot(k: ReservedToken): nat {
    match k
    case LogicalNot => 0
    case Ne => 1
    case Mod => 2
    case ModAssign => 3
    case BitwiseAnd => 4
    case LogicalAnd => 5
    case AndAssign => 6
    case OpenRound => 7
    case CloseRound => 8
    case Mul => 9
    case MulAssign => 10
    case Add => 11
    case Inc => 12
    case AddAssign => 13
    case Comma => 14
    case Sub => 15
    case Dec => 16
    case SubAssign => 17
    case Div => 18
    case DivAssign => 19
    case Colon => 20
    case Semicolon => 21
    case Lt => 22
    case Shiftl => 23
    case ShiftlAssign => 24
    case Le => 25
    case Assign => 26
    case Eq => 27
    case Gt => 28
    case Ge => 29
    case Shiftr => 30
    case ShiftrAssign => 31
    case Question => 32
    case OpenSquare => 33
    case Idiv => 34
    case IdivAssign => 35
    case CloseSquare => 36
    case BitwiseXor => 37
    case XorAssign => 38
    case OpenCurly => 39
    case BitwiseOr => 40
    case OrAssign => 41
    case LogicalOr => 42
    case CloseCurly => 43
    case BitwiseNot => 44
    case KwBreak => 45
    case KwCase => 46
    case KwContinue => 47
    case KwDefault => 48
    case KwDo => 49
    case KwElif => 50
    case KwElse => 51
    case KwFor => 52
    case KwFun => 53
    case KwIf => 54
    case KwNumber => 55
    case KwReturn => 56
    case KwString => 57
    case KwSwitch => 58
    case KwVar => 59
    case KwVoid => 60
    case KwWhile => 61
  }

  // Operator and keyword entries carry the kinds whose slots are their positions,
  // stated over small windows of positions so that each proof stays cheap.

  lemma OperatorSlotsFrom0()
    ensures forall i | 0 <= i < 5 :: KindSlot(OperatorEntry(i).1) == i
  {
  }

  lemma OperatorSlotsFrom5()
    ensures forall i | 5 <= i < 10 :: KindSlot(OperatorEntry(i).1) == i
  {
  }

  lemma OperatorSlotsFrom10()
    ensures forall i | 10 <= i < 15 :: KindSlot(OperatorEntry(i).1) == i
  {
  }

  lemma OperatorSlotsFrom15()
    ensures forall i | 15 <= i < 20 :: KindSlot(OperatorEntry(i).1) == i
  {
  }

  lemma OperatorSlotsFrom20()
    ensures forall i | 20 <= i < 25 :: KindSlot(OperatorEntry(i).1) == i
  {
  }

  lemma OperatorSlotsFrom25()
    ensures forall i | 25 <= i < 30 :: KindSlot(OperatorEntry(i).1) == i
  {
  }

  lemma OperatorSlotsFrom30()
    ensures forall i | 30 <= i < 35 :: KindSlot(OperatorEntry(i).1) == i
  {
  }

  lemma OperatorSlotsFrom35()
    ensures forall i | 35 <= i < 40 :: KindSlot(OperatorEntry(i).1) == i
  {
  }

  lemma OperatorSlotsFrom40()
    ensures forall i | 40 <= i < 45 :: KindSlot(OperatorEntry(i).1) == i
  {
  }

  lemma KeywordSlotsFrom0()
    ensures forall i | 0 <= i < 4 :: KindSlot(KeywordEntry(i).1) == 45 + i
  {
  }

  lemma KeywordSlotsFrom4()
    ensures forall i | 4 <= i < 8 :: KindSlot(KeywordEntry(i).1) == 45 + i
  {
  }

  lemma KeywordSlotsFrom8()
    ensures forall i | 8 <= i < 12 :: KindSlot(KeywordEntry(i).1) == 45 + i
  {
  }

  lemma KeywordSlotsFrom12()
    ensures forall i | 12 <= i < 15 :: KindSlot(KeywordEntry(i).1) == 45 + i
  {
  }

  lemma KeywordSlotsFrom15()
    ensures forall i | 15 <= i < 17 :: KindSlot(KeywordEntry(i).1) == 45 + i
  {
  }

  /** Operator kinds sit at their operator position, keyword kinds after all operators. */
  lemma KindSlots()
    ensures forall i | 0 <= i < OperatorCount :: KindSlot(OperatorTokenMap()[i].1) == i
    ensures forall i | 0 <= i < KeywordCount :: KindSlot(KeywordTokenMap()[i].1) == OperatorCount + i
  {
    OperatorTableEntries();
    KeywordTableEntries();
    OperatorSlotsFrom0();
    OperatorSlotsFrom5();
    OperatorSlotsFrom10();
    OperatorSlotsFrom15();
    OperatorSlotsFrom20();
    OperatorSlotsFrom25();
    OperatorSlotsFrom30();
    OperatorSlotsFrom35();
    OperatorSlotsFrom40();
    KeywordSlotsFrom0();
    KeywordSlotsFrom4();
    KeywordSlotsFrom8();
    KeywordSlotsFrom12();
    KeywordSlotsFrom15();
  }

  lemma OperatorKindAt0(k: ReservedToken)
    requires 0 <= KindSlot(k) < 8
    ensures OperatorEntry(KindSlot(k)).1 == k
  {
    match k
    case LogicalNot => {}
    case Ne => {}
    case Mod => {}
    case ModAssign => {}
    case BitwiseAnd => {}
    case LogicalAnd => {}
    case AndAssign => {}
    case OpenRound => {}
    case _ => {}
  }

  lemma OperatorKindAt8(k: ReservedToken)
    requires 8 <= KindSlot(k) < 16
    ensures OperatorEntry(KindSlot(k)).1 == k
  {
    match k
    case CloseRound => {}
    case Mul => {}
    case MulAssign => {}
    case Add => {}
    case Inc => {}
    case AddAssign => {}
    case Comma => {}
    case Sub => {}
    case _ => {}
  }

  lemma OperatorKindAt16(k: ReservedToken)
    requires 16 <= KindSlot(k) < 24
    ensures OperatorEntry(KindSlot(k)).1 == k
  {
    match k
    case Dec => {}
    case SubAssign => {}
    case Div => {}
    case DivAssign => {}
    case Colon => {}
    case Semicolon => {}
    case Lt => {}
    case Shiftl => {}
    case _ => {}
  }

  lemma OperatorKindAt24(k: ReservedToken)
    requires 24 <= KindSlot(k) < 32
    ensures OperatorEntry(KindSlot(k)).1 == k
  {
    match k
    case ShiftlAssign => {}
    case Le => {}
    case Assign => {}
    case Eq => {}
    case Gt => {}
    case Ge => {}
    case Shiftr => {}
    case ShiftrAssign => {}
    case _ => {}
  }

  lemma OperatorKindAt32(k: ReservedToken)
    requires 32 <= KindSlot(k) < 40
    ensures OperatorEntry(KindSlot(k)).1 == k
  {
    match k
    case Question => {}
    case OpenSquare => {}
    case Idiv => {}
    case IdivAssign => {}
    case CloseSquare => {}
    case BitwiseXor => {}
    case XorAssign => {}
    case OpenCurly => {}
    case _ => {}
  }

  lemma OperatorKindAt40(k: ReservedToken)
    requires 40 <= KindSlot(k) < 45
    ensures OperatorEntry(KindSlot(k)).1 == k
  {
    match k
    case BitwiseOr => {}
    case OrAssign => {}
    case LogicalOr => {}
    case CloseCurly => {}
    case BitwiseNot => {}
    case _ => {}
  }

  lemma KeywordKindAt45(k: ReservedToken)
    requires 45 <= KindSlot(k) < 53
    ensures KeywordEntry(KindSlot(k) - 45).1 == k
  {
    match k
    case KwBreak => {}
    case KwCase => {}
    case KwContinue => {}
    case KwDefault => {}
    case KwDo => {}
    case KwElif => {}
    case KwElse => {}
    case KwFor => {}
    case _ => {}
  }

  lemma KeywordKindAt53(k: ReservedToken)
    requires 53 <= KindSlot(k) < 62
    ensures KeywordEntry(KindSlot(k) - 45).1 == k
  {
    match k
    case KwFun => {}
    case KwIf => {}
    case KwNumber => {}
    case KwReturn => {}
    case KwString => {}
    case KwSwitch => {}
    case KwVar => {}
    case KwVoid => {}
    case KwWhile => {}
    case _ => {}
  }

  /** Every kind has a slot, and the entry at that slot carries the kind. */
  lemma KindAtSlot(k: ReservedToken)
    ensures KindSlot(k) < 62
    ensures KindSlot(k) < 45 ==> OperatorEntry(KindSlot(k)).1 == k
    ensures KindSlot(k) >= 45 ==> KeywordEntry(KindSlot(k) - 45).1 == k
  {
    if KindSlot(k) < 8 {
      OperatorKindAt0(k);
    } else if KindSlot(k) < 16 {
      OperatorKindAt8(k);
    } else if KindSlot(k) < 24 {
      OperatorKindAt16(k);
    } else if KindSlot(k) < 32 {
      OperatorKindAt24(k);
    } else if KindSlot(k) < 40 {
      OperatorKindAt32(k);
    } else if KindSlot(k) < 45 {
      OperatorKindAt40(k);
    } else if KindSlot(k) < 53 {
      KeywordKindAt45(k);
    } else {
      KeywordKindAt53(k);
    }
  }

  /**
   * The reverse table holds one entry per operator entry and one per keyword
   * entry, no kind twice, and an entry for every kind.
   */
  lemma TokenStringMapComplete()
    ensures |TokenStringMap()| == |OperatorTokenMap()| + |KeywordTokenMap()| == 62
    ensures DistinctKeys(TokenStringMap())
    ensures forall k: ReservedToken :: KindSlot(k) < |TokenStringMap()| && TokenStringMap()[KindSlot(k)].0 == k
  {
    KindSlots();
    OperatorTableEntries();
    KeywordTableEntries();
    var t := TokenStringMap();
    forall i | 0 <= i < |t| ensures KindSlot(t[i].0) == i {
      if i >= OperatorCount {
        assert t[i].0 == KeywordTokenMap()[i - OperatorCount].1;
      }
    }
    forall k: ReservedToken ensures KindSlot(k) < |t| && t[KindSlot(k)].0 == k {
      KindAtSlot(k);
    }
  }

  /** An entry (k, w) of the reverse table comes from an entry (w, k) of one of the spelling tables. */
  lemma ReverseEntryOrigin(k: ReservedToken, w: string)
    requires (k, w) in TokenStringMap()
    ensures Find(OperatorTokenMap(), w) == Some(k) || Find(KeywordTokenMap(), w) == Some(k)
  {
    var i :| 0 <= i < |TokenStringMap()| && TokenStringMap()[i] == (k, w);
    if i < OperatorCount {
      assert OperatorTokenMap()[i] == (w, k);
      OperatorTableSorted();
      FindEntry(OperatorTokenMap(), i);
    } else {
      assert KeywordTokenMap()[i - OperatorCount] == (w, k);
      KeywordTableSorted();
      FindEntry(KeywordTokenMap(), i - OperatorCount);
    }
  }

  /** Every kind has an entry in the reverse table. */
  lemma KindHasSpelling(k: ReservedToken)
    ensures Find(TokenStringMap(), k).Some?
  {
    TokenStringMapComplete();
    assert TokenStringMap()[KindSlot(k)].0 == k;
  }

  /**
   * The printer, operator<<: the spelling of a kind, read from the reverse
   * table without a check that the kind is there.  Every kind is there, and
   * the spelling found leads back to the kind in the table it came from.
   */
  function TokenString(k: ReservedToken): (r: string)
    ensures Find(OperatorTokenMap(), r) == Some(k) || Find(KeywordTokenMap(), r) == Some(k)
  {
    KindHasSpelling(k);
    var w := Find(TokenStringMap(), k).value;
    ReverseEntryOrigin(k, w);
    w
  }

  /** Printing the kind of any table entry gives back that entry's spelling. */
  lemma PrintedSpelling()
    ensures forall i | 0 <= i < |OperatorTokenMap()| :: TokenString(OperatorTokenMap()[i].1) == OperatorTokenMap()[i].0
    ensures forall i | 0 <= i < |KeywordTokenMap()| :: TokenString(KeywordTokenMap()[i].1) == KeywordTokenMap()[i].0
  {
    TokenStringMapComplete();
    forall i | 0 <= i < |OperatorTokenMap()|
      ensures TokenString(OperatorTokenMap()[i].1) == OperatorTokenMap()[i].0
    {
      assert TokenStringMap()[i] == (OperatorTokenMap()[i].1, OperatorTokenMap()[i].0);
      FindEntry(TokenStringMap(), i);
    }
    forall i | 0 <= i < |KeywordTokenMap()|
      ensures TokenString(KeywordTokenMap()[i].1) == KeywordTokenMap()[i].0
    {
      assert TokenStringMap()[OperatorCount + i] == (KeywordTokenMap()[i].1, KeywordTokenMap()[i].0);
      FindEntry(TokenStringMap(), OperatorCount + i);
    }
  }

  /** get_keyword: the kind of a word that is exactly a keyword, else None. */
  function GetKeyword(word: string): (r: Option<ReservedToken>)
    ensures r.Some? <==> exists i | 0 <= i < |KeywordTokenMap()| :: KeywordTokenMap()[i].0 == word
    ensures r.Some? ==> exists i | 0 <= i < |KeywordTokenMap()| :: KeywordTokenMap()[i] == (word, r.value)
  {
    Find(KeywordTokenMap(), word)
  }

  /** A word the keyword lookup accepts prints back as itself, and every keyword's printed spelling looks up to it. */
  lemma KeywordRoundTrip(word: string)
    ensures GetKeyword(word).Some? ==> TokenString(GetKeyword(word).value) == word
    ensures forall i | 0 <= i < |KeywordTokenMap()| ::
      GetKeyword(TokenString(KeywordTokenMap()[i].1)) == Some(KeywordTokenMap()[i].1)
  {
    PrintedSpelling();
    KeywordTableSorted();
    if GetKeyword(word).Some? {
      var i :| 0 <= i < |KeywordTokenMap()| && KeywordTokenMap()[i] == (word, GetKeyword(word).value);
      assert TokenString(KeywordTokenMap()[i].1) == KeywordTokenMap()[i].0;
    }
    forall i | 0 <= i < |KeywordTokenMap()|
      ensures GetKeyword(TokenString(KeywordTokenMap()[i].1)) == Some(KeywordTokenMap()[i].1)
    {
      FindEntry(KeywordTokenMap(), i);
    }
  }

  /** Looking up a whole keyword finds its kind. */
  lemma KeywordFound()
    ensures GetKeyword("fun") == Some(KwFun)
  {
    KeywordTableSorted();
    FindEntry(KeywordTokenMap(), 8);
  }

  /** Keyword lookup is exact: an extension of a keyword is no keyword. */
  lemma KeywordExtensionNotFound()
    ensures GetKeyword("funny") == None
  {
    var t := KeywordTokenMap();
    assert KeySorted(t) by {
      KeywordTableSorted();
    }
    assert t[8].0 == "fun" && t[9].0 == "if";
    AbsentBetweenNeighbours(t, 8, "funny");
  }

  /** Keyword lookup is exact: a proper prefix of a keyword is no keyword. */
  lemma KeywordPrefixNotFound()
    ensures GetKeyword("fu") == None
  {
    var t := KeywordTokenMap();
    assert KeySorted(t) by {
      KeywordTableSorted();
    }
    assert t[7].0 == "for" && t[8].0 == "fun";
    AbsentBetweenNeighbours(t, 7, "fu");
  }
}
