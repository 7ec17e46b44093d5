/** The symbol table: chains of records found by a hash of the name. It is proved to be a
    finite map from names to records, whatever is declared and however often. */
module JamSym {
  import opened Bits
  import opened Options

  const MAX_SYMBOL_COUNT: nat := 1021
  const MAX_NAME_LENGTH: nat := 32

  type Name = string

  datatype Kind =
    | Label
    | IntegerSymbol
    | BooleanSymbol
    | IntegerArrayWritable
    | BooleanArrayWritable
    | IntegerArrayInitialized
    | BooleanArrayInitialized
    | DataBlock
    | ProcedureBlock

  /** A symbol record; `parent` names the block it was declared in. */
  datatype Symbol = Symbol(name: Name, kind: Kind, value: long, position: nat, parent: Option<Name>)

  datatype Status = Success | IllegalSymbol | RedefinedSymbol | UndefinedSymbol | TypeMismatch

  // ---------------------------------------------------------------------------
  // The hash
  // ---------------------------------------------------------------------------

  /** The sum over the name, as a 32-bit variable holds it. */
  function HashSum(name: Name): long {
    if name == "" then 0
    else ToLong(2 * HashSum(name[..|name| - 1]) + name[|name| - 1] as int % 32)
  }

  function Significant(name: Name): Name {
    if |name| <= MAX_NAME_LENGTH then name else name[..MAX_NAME_LENGTH]
  }

  /** The C remainder: it has the sign of its left operand. */
  function CRemainder(x: int, n: nat): int
    requires n > 0
  {
    if x >= 0 then x % n else -((-x) % n)
  }

  function HashIndex(name: Name): int {
    var hash: int := HashSum(Significant(name));
    CRemainder(if hash < 0 then ToLong(-hash) else hash, MAX_SYMBOL_COUNT)
  }

  /** jam_hash */
  method Hash(name: Name) returns (index: int)
    ensures index == HashIndex(name)
  {
    var i, hash := 0, 0 as long;
    while i < MAX_NAME_LENGTH && i < |name|
      invariant 0 <= i <= |Significant(name)| && hash == HashSum(name[..i])
    {
      assert name[..i + 1][..i] == name[..i];
      hash := ToLong(2 * hash + name[i] as int % 32);
      i := i + 1;
    }
    assert name[..i] == Significant(name);
    if hash < 0 {
      hash := ToLong(-hash);
    }
    index := CRemainder(hash, MAX_SYMBOL_COUNT);
  }

  /** The index is one of the table, except when the sum is the one number that stays negative
      when its sign is changed. */
  lemma HashInRangeIff(name: Name)
    ensures 0 <= HashIndex(name) < 1021 <==> HashSum(Significant(name)) != -0x8000_0000
  {
    var hash := HashSum(Significant(name));
    if hash == -0x8000_0000 {
      assert ToLong(0x8000_0000) == -0x8000_0000;
    }
  }

  lemma {:induction false} SmallSums(name: Name)
    requires |name| <= 26
    ensures 0 <= HashSum(name) <= 31 * (Pow2(|name|) - 1)
    decreases |name|
  {
    Pow2Mono(|name|, 26);
    TwentySixBits();
    if name != "" {
      SmallSums(name[..|name| - 1]);
    } else {
      assert Pow2(0) == 1;
    }
  }

  lemma TwentySixBits()
    ensures Pow2(26) == 0x400_0000
  {
    Pow2Values();
    Pow2Add(16, 10);
    Pow2Add(8, 2);
    assert Pow2(2) == 4;
  }

  /** Names of up to 26 characters never come near it. */
  lemma ShortNamesHash(name: Name)
    requires |name| <= 26
    ensures 0 <= HashIndex(name) < MAX_SYMBOL_COUNT
  {
    SmallSums(name);
    HashInRangeIff(name);
  }

  function Ps(k: nat): (name: Name)
    ensures |name| == k
  {
    if k == 0 then "" else Ps(k - 1) + "P"
  }

  lemma {:induction false} SumOfPs(k: nat)
    requires k <= 26
    ensures HashSum(Ps(k)) == 16 * (Pow2(k) - 1)
  {
    hide HashSum, ToLong, Pow2;
    DoublePower(k);
    if k == 0 {
      AddNothing();
    } else {
      SumOfPs(k - 1);
      AddLetter(Ps(k - 1), 'P');
      Pow2Mono(k, 26);
      TwentySixBits();
      NextSum(Pow2(k - 1), Pow2(k));
    }
  }

  lemma AddNothing()
    ensures HashSum("") == 0
  {
  }

  lemma DoublePower(k: nat)
    ensures Pow2(k) == if k == 0 then 1 else 2 * Pow2(k - 1)
  {
  }

  lemma NextSum(half: nat, power: nat)
    requires power == 2 * half <= 0x400_0000 && half > 0
    ensures ToLong(2 * (16 * (half - 1)) + 16) == 16 * (power - 1)
  {
  }

  lemma AddLetter(name: Name, ch: char)
    ensures HashSum(name + [ch]) == ToLong(2 * HashSum(name) + ch as int % 32)
  {
    assert (name + [ch])[..|name|] == name;
  }

  lemma LastLetters(name: Name)
    requires HashSum(name) == 0x3FF_FFF0
    ensures HashSum(name + "Q" + "P" + "P" + "P" + "P") == -0x8000_0000
  {
    hide HashSum;
    AddLetter(name, 'Q');
    AddLetter(name + "Q", 'P');
    AddLetter(name + "Q" + "P", 'P');
    AddLetter(name + "Q" + "P" + "P", 'P');
    AddLetter(name + "Q" + "P" + "P" + "P", 'P');
    assert ToLong(0x8000_0000) == -0x8000_0000;
  }

  lemma TwentyTwoPs()
    ensures HashSum(Ps(22)) == 0x3FF_FFF0
  {
    hide HashSum;
    SumOfPs(22);
    Pow2Values();
    Pow2Add(16, 6);
  }

  /** A legal name of 27 characters whose index is none of the table: 26 is as far as the
      promise holds. */
  lemma TwentySevenCanMiss() returns (name: Name)
    ensures |name| == 27 && LegalName(name)
    ensures HashSum(name) == -0x8000_0000 && HashIndex(name) < 0
  {
    hide HashSum;
    TwentyTwoPs();
    LastLetters(Ps(22));
    name := Ps(22) + "Q" + "P" + "P" + "P" + "P";
    AllPs(22);
    assert Significant(name) == name;
    LeastIsNegative();
  }

  lemma LeastIsNegative()
    ensures CRemainder(ToLong(0x8000_0000), MAX_SYMBOL_COUNT) < 0
  {
    assert ToLong(0x8000_0000) == -0x8000_0000;
  }

  lemma {:induction false} AllPs(k: nat)
    ensures forall i :: 0 <= i < k ==> Ps(k)[i] == 'P'
  {
    if k != 0 {
      AllPs(k - 1);
    }
  }

  // ---------------------------------------------------------------------------
  // The table as a map
  // ---------------------------------------------------------------------------

  type Symbols = map<Name, Symbol>

  /** What the interpreter's other variables contribute to a declaration. */
  datatype Context = Context(version: nat, dataPhase: bool, block: Option<Symbol>, initList: Name -> Option<long>)

  predicate IsNameChar(ch: char) {
    'A' <= ch <= 'Z' || 'a' <= ch <= 'z' || '0' <= ch <= '9' || ch == '_'
  }

  predicate LegalName(name: Name) {
    1 <= |name| <= MAX_NAME_LENGTH && forall i :: 0 <= i < |name| ==> IsNameChar(name[i])
  }

  /** In the data phase a writable array may have become an initialized one at the same place. */
  function DeclaredKind(c: Context, kind: Kind, position: nat, known: Symbol): Kind {
    if c.dataPhase && known.position == position && kind == IntegerArrayWritable && known.kind == IntegerArrayInitialized then
      IntegerArrayInitialized
    else if c.dataPhase && known.position == position && kind == BooleanArrayWritable && known.kind == BooleanArrayInitialized then
      BooleanArrayInitialized
    else kind
  }

  /** Meeting a declaration again assigns its value in Jam 1.x, and in Jam 2.0 only inside a
      procedure and not to a block. */
  predicate Reassigns(c: Context, kind: Kind) {
    c.version != 2
    || (kind != ProcedureBlock && kind != DataBlock && c.block.Some? && c.block.value.kind == ProcedureBlock)
  }

  function FirstValue(c: Context, kind: Kind, name: Name, value: long): long {
    if (kind == IntegerSymbol || kind == BooleanSymbol) && c.version != 2 && c.initList(name).Some? then
      c.initList(name).value
    else value
  }

  function Added(m: Symbols, c: Context, kind: Kind, name: Name, value: long, position: nat): (Status, Symbols) {
    if !LegalName(name) then (IllegalSymbol, m)
    else if name !in m then
      (Success, m[name := Symbol(name, kind, FirstValue(c, kind, name, value), position,
        if c.block.Some? then Some(c.block.value.name) else None)])
    else
      var known := m[name];
      var declared := DeclaredKind(c, kind, position, known);
      if known.kind != declared || known.position != position then (RedefinedSymbol, m)
      else if Reassigns(c, declared) then (Success, m[name := known.(value := value)])
      else (Success, m)
  }

  function Assigned(m: Symbols, kind: Kind, name: Name, value: long): (Status, Symbols) {
    if name !in m then (UndefinedSymbol, m)
    else if m[name].kind != kind then (TypeMismatch, m)
    else (Success, m[name := m[name].(value := value)])
  }

  datatype Call =
    | Add(context: Context, kind: Kind, name: Name, value: long, position: nat)
    | Set(kind: Kind, name: Name, value: long)

  function Made(m: Symbols, call: Call): Symbols {
    match call
    case Add(c, kind, name, value, position) => Added(m, c, kind, name, value, position).1
    case Set(kind, name, value) => Assigned(m, kind, name, value).1
  }

  function After(m: Symbols, calls: seq<Call>): Symbols
    decreases |calls|
  {
    if calls == [] then m else After(Made(m, calls[0]), calls[1..])
  }

  /** Once declared, a symbol keeps its kind, place and block for the rest of the run: only its
      value changes. */
  lemma {:induction false} DeclarationsLast(m: Symbols, calls: seq<Call>, name: Name)
    requires name in m
    ensures name in After(m, calls) && After(m, calls)[name] == m[name].(value := After(m, calls)[name].value)
    decreases |calls|
  {
    if calls != [] {
      var next := Made(m, calls[0]);
      assert name in next && next[name] == m[name].(value := next[name].value);
      hide Made;
      DeclarationsLast(next, calls[1..], name);
    }
  }

  /** What a declaration of a known or illegal name does outside the data phase: another kind or
      place is an error that changes nothing, the same one changes the value at most, and does so
      in Jam 1.x. */
  lemma DeclaredAgain(m: Symbols, c: Context, kind: Kind, name: Name, value: long, position: nat)
    requires name in m && !c.dataPhase
    ensures var (status, after) := Added(m, c, kind, name, value, position);
      && (!LegalName(name) ==> status == IllegalSymbol && after == m)
      && (LegalName(name) && (m[name].kind != kind || m[name].position != position) ==>
            status == RedefinedSymbol && after == m)
      && (LegalName(name) && m[name].kind == kind && m[name].position == position ==>
            && status == Success
            && (after == m || after == m[name := m[name].(value := value)])
            && (c.version == 1 ==> after[name].value == value))
  {
  }

  lemma {:induction false} AfterJoin(m: Symbols, a: seq<Call>, b: seq<Call>)
    ensures After(m, a + b) == After(After(m, a), b)
    decreases |a|
  {
    hide Made;
    if a == [] {
      assert a + b == b;
    } else {
      assert (a + b)[1..] == a[1..] + b;
      AfterJoin(Made(m, a[0]), a[1..], b);
    }
  }

  /** Calls about other names do not touch a symbol. */
  lemma {:induction false} OthersDoNotMatter(m: Symbols, calls: seq<Call>, name: Name)
    requires name in m && forall i :: 0 <= i < |calls| ==> calls[i].name != name
    ensures name in After(m, calls) && After(m, calls)[name] == m[name]
    decreases |calls|
  {
    if calls != [] {
      var next := Made(m, calls[0]);
      assert name in next && next[name] == m[name];
      hide Made;
      OthersDoNotMatter(next, calls[1..], name);
    }
  }

  /** In any run the value of a symbol is the one it was last set to. */
  lemma LastValueIsFound(m: Symbols, before: seq<Call>, kind: Kind, name: Name, value: long, behind: seq<Call>)
    requires name in After(m, before) && After(m, before)[name].kind == kind
    requires forall i :: 0 <= i < |behind| ==> behind[i].name != name
    ensures var found := After(m, before + [Set(kind, name, value)] + behind);
      name in found && found[name].value == value && found[name].kind == kind
  {
    var setting := [Set(kind, name, value)];
    AfterJoin(m, before + setting, behind);
    AfterJoin(m, before, setting);
    assert setting[1..] == [];
    var known := After(m, before);
    var next := Made(known, setting[0]);
    assert After(known, setting) == After(next, []) == next;
    assert next[name].value == value;
    OthersDoNotMatter(next, behind, name);
  }

  /** And until then the one it was declared with. */
  lemma FirstValueIsFound(m: Symbols, before: seq<Call>, c: Context, kind: Kind, name: Name, value: long, position: nat,
      behind: seq<Call>)
    requires LegalName(name) && name !in After(m, before) && (c.version == 2 || c.initList(name) == None)
    requires forall i :: 0 <= i < |behind| ==> behind[i].name != name
    ensures var found := After(m, before + [Add(c, kind, name, value, position)] + behind);
      && name in found && found[name].name == name
      && found[name].value == value && found[name].kind == kind && found[name].position == position
  {
    var add := [Add(c, kind, name, value, position)];
    AfterJoin(m, before + add, behind);
    AfterJoin(m, before, add);
    assert add[1..] == [];
    var known := After(m, before);
    var next := Made(known, add[0]);
    assert After(known, add) == After(next, []) == next;
    OthersDoNotMatter(next, behind, name);
  }

  // ---------------------------------------------------------------------------
  // The table in place
  // ---------------------------------------------------------------------------

  class SymbolTable {
    const table: array<seq<Symbol>>
    ghost var contents: Symbols

    /** Each name stands once, in the chain its hash points to, and the map says the same. */
    ghost predicate Valid()
      reads this, table
    {
      && table.Length == MAX_SYMBOL_COUNT
      && (forall h, i :: 0 <= h < table.Length && 0 <= i < |table[h]| ==> Recorded(table[h][i], h))
      && (forall h, i, j :: 0 <= h < table.Length && 0 <= i < j < |table[h]| ==> table[h][i].name != table[h][j].name)
      && (forall name :: name in contents ==> InChain(name))
    }

    ghost predicate Recorded(s: Symbol, h: int)
      reads this
    {
      HashIndex(s.name) == h && s.name in contents && contents[s.name] == s
    }

    ghost predicate InChain(name: Name)
      reads this, table
      requires table.Length == MAX_SYMBOL_COUNT
    {
      var h := HashIndex(name);
      0 <= h < MAX_SYMBOL_COUNT && exists i :: 0 <= i < |table[h]| && table[h][i].name == name
    }

    /** jam_init_symbol_table */
    constructor ()
      ensures Valid() && contents == map[] && fresh(table)
    {
      table := new seq<Symbol>[MAX_SYMBOL_COUNT](_ => []);
      contents := map[];
    }

    /** The walk along a chain that every operation makes. */
    method Scan(h: nat, name: Name) returns (i: nat)
      requires Valid() && h < MAX_SYMBOL_COUNT && h == HashIndex(name)
      ensures i <= |table[h]| && (i < |table[h]| <==> name in contents)
      ensures i < |table[h]| ==> table[h][i].name == name && table[h][i] == contents[name]
    {
      hide HashIndex;
      i := 0;
      while i < |table[h]| && table[h][i].name != name
        invariant 0 <= i <= |table[h]| && forall j :: 0 <= j < i ==> table[h][j].name != name
      {
        i := i + 1;
      }
      assert i < |table[h]| ==> Recorded(table[h][i], h);
      assert name in contents ==> InChain(name);
    }

    /** Replaces the value of a record in its chain. */
    method SetValueAt(h: nat, i: nat, value: long)
      requires Valid() && h < MAX_SYMBOL_COUNT && i < |table[h]|
      modifies this, table
      ensures Valid()
      ensures contents == old(contents)[old(table[h][i].name) := old(table[h][i]).(value := value)]
    {
      hide HashIndex;
      ghost var was: seq<seq<Symbol>>, before := table[..], contents;
      var s := table[h][i];
      assert Recorded(s, h);
      table[h] := table[h][i := s.(value := value)];
      contents := contents[s.name := s.(value := value)];
      forall g, j | 0 <= g < table.Length && 0 <= j < |table[g]| ensures Recorded(table[g][j], g) {
        assert was[g][j].name == s.name ==> g == h;
        assert table[g][j].name == was[g][j].name;
      }
      forall name | name in contents ensures InChain(name) {
        assert name in before;
        var g := HashIndex(name);
        var j :| 0 <= j < |was[g]| && was[g][j].name == name;
        assert table[g][j].name == name;
      }
    }

    /** Hangs a new record on the end of its chain. */
    method Append(h: nat, s: Symbol)
      requires Valid() && h < MAX_SYMBOL_COUNT && HashIndex(s.name) == h && s.name !in contents
      modifies this, table
      ensures Valid() && contents == old(contents)[s.name := s]
    {
      hide HashIndex;
      ghost var was: seq<seq<Symbol>>, before := table[..], contents;
      table[h] := table[h] + [s];
      contents := contents[s.name := s];
      forall g, j | 0 <= g < table.Length && 0 <= j < |table[g]| ensures Recorded(table[g][j], g) {
        assert j < |was[g]| ==> table[g][j] == was[g][j];
      }
      forall name | name in contents ensures InChain(name) {
        if name == s.name {
          assert table[h][|table[h]| - 1].name == name;
        } else {
          assert name in before;
          var g := HashIndex(name);
          var j :| 0 <= j < |was[g]| && was[g][j].name == name;
          assert table[g][j].name == name;
        }
      }
    }

    /** jam_add_symbol, with room for one more record. */
    method AddSymbol(c: Context, kind: Kind, name: Name, value: long, position: nat) returns (status: Status)
      requires Valid() && 0 <= HashIndex(name) < MAX_SYMBOL_COUNT
      modifies this, table
      ensures Valid()
      ensures (status, contents) == Added(old(contents), c, kind, name, value, position)
    {
      hide HashIndex, Valid, IsNameChar;
      status := Success;
      var legal := true;
      for i := 0 to |name|
        invariant legal == forall j :: 0 <= j < i ==> IsNameChar(name[j])
      {
        legal := legal && IsNameChar(name[i]);
      }
      if !legal || |name| == 0 || |name| > MAX_NAME_LENGTH {
        status := IllegalSymbol;
      }
      var h := Hash(name);
      if status == Success {
        var i := Scan(h, name);
        TableHasRoom();
        if i < |table[h]| {
          var known := table[h][i];
          var declared := kind;
          if known.position == position && c.dataPhase {
            if kind == IntegerArrayWritable && known.kind == IntegerArrayInitialized {
              declared := IntegerArrayInitialized;
            }
            if kind == BooleanArrayWritable && known.kind == BooleanArrayInitialized {
              declared := BooleanArrayInitialized;
            }
          }
          if known.kind == declared && known.position == position {
            if Reassigns(c, declared) {
              SetValueAt(h, i, value);
            }
          } else {
            status := RedefinedSymbol;
          }
        } else {
          var first := FirstValue(c, kind, name, value);
          Append(h, Symbol(name, kind, first, position, if c.block.Some? then Some(c.block.value.name) else None));
        }
      }
    }

    lemma TableHasRoom()
      requires Valid()
      ensures table.Length == MAX_SYMBOL_COUNT
    {
    }

    /** jam_get_symbol_record in Jam 1.x, where every symbol is in scope. */
    method GetRecord(name: Name) returns (record: Option<Symbol>)
      requires Valid() && 0 <= HashIndex(name) < MAX_SYMBOL_COUNT
      ensures record == if name in contents then Some(contents[name]) else None
    {
      hide HashIndex;
      var h := Hash(name);
      var i := Scan(h, name);
      record := if i < |table[h]| then Some(table[h][i]) else None;
    }

    /** jam_set_symbol_value */
    method SetSymbolValue(kind: Kind, name: Name, value: long) returns (status: Status)
      requires Valid() && 0 <= HashIndex(name) < MAX_SYMBOL_COUNT
      modifies this, table
      ensures Valid()
      ensures (status, contents) == Assigned(old(contents), kind, name, value)
    {
      hide HashIndex;
      var h := Hash(name);
      var i := Scan(h, name);
      if i == |table[h]| {
        status := UndefinedSymbol;
      } else if table[h][i].kind != kind {
        status := TypeMismatch;
      } else {
        SetValueAt(h, i, value);
        status := Success;
      }
    }
  }
}
