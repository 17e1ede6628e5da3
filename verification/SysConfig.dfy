/** The configuration cache in front of its table: a table of strings, read through a cache of
    booleans and strings, written by single settings and by a replacement of the whole table. */
module SysConfig {
  import opened Text
  import opened Wrappers

  /** One row; items are unique in the table. */
  datatype Row = Row(item: string, value: string)

  datatype Value = Flag(b: bool) | Str(s: string)

  type Cache = map<string, Value>

  datatype State = State(table: seq<Row>, cache: Cache)

  // ---- values ----------------------------------------------------------------------------

  /** `filter_bool`: any spelling of true or false is a boolean. */
  function FilterBool(s: string): Value {
    if LowerAll(s) == "true" then Flag(true)
    else if LowerAll(s) == "false" then Flag(false)
    else Str(s)
  }

  /** What `get_all_config` makes of a stored string: four spellings only. */
  function LoadValue(s: string): Value {
    if s == "true" || s == "True" then Flag(true)
    else if s == "false" || s == "False" then Flag(false)
    else Str(s)
  }

  predicate IsTruthy(v: Value) {
    match v case Flag(b) => b case Str(s) => s != ""
  }

  predicate IsBlankString(v: Value) {
    v.Str? && Strip(v.s) == ""
  }

  function DbValue(v: Value): string {
    match v
    case Flag(true) => "true"
    case Flag(false) => "false"
    case Str(s) => s
  }

  // ---- the table -------------------------------------------------------------------------

  function Lookup(table: seq<Row>, key: string): Option<string> {
    if table == [] then None
    else if Last(table).item == key then Some(Last(table).value)
    else Lookup(Front(table), key)
  }

  predicate ItemsDistinct(table: seq<Row>) {
    forall i, j | 0 <= i < j < |table| :: table[i].item != table[j].item
  }

  /** `update_or_create` */
  function Store(table: seq<Row>, key: string, value: string): seq<Row> {
    if table == [] then [Row(key, value)]
    else if table[0].item == key then [Row(key, value)] + table[1..]
    else [table[0]] + Store(table[1..], key, value)
  }

  // ---- reading ---------------------------------------------------------------------------

  /** The answer straight from the table: the normalised value, none if it is missing or blank. */
  function Uncached(table: seq<Row>, key: string): Option<Value> {
    match Lookup(table, key)
    case None => None
    case Some(s) => if IsBlankString(FilterBool(s)) then None else Some(FilterBool(s))
  }

  /** The answer of `get`, none standing for the default, and the cache after it. */
  function Get(s: State, key: string): (Option<Value>, Cache) {
    var cached := if key in s.cache then Some(s.cache[key]) else None;
    if cached.Some? && IsTruthy(cached.value) then (cached, s.cache)
    else
      var value := match Lookup(s.table, key) case None => cached case Some(v) => Some(FilterBool(v));
      if value.None? || IsBlankString(value.value) then (None, s.cache)
      else (value, s.cache[key := value.value])
  }

  /** A fresh load of the table. */
  function Load(table: seq<Row>): Cache {
    if table == [] then map[] else Load(Front(table))[Last(table).item := LoadValue(Last(table).value)]
  }

  // ---- replacing -------------------------------------------------------------------------

  /** One element of the submitted list: a key and a value, or something else. */
  datatype Item = Pair(key: string, value: string) | Malformed

  /** The submitted text as the JSON reader sees it. */
  datatype Submitted = NotAList | Items(items: seq<Item>)

  predicate AllPairs(items: seq<Item>) {
    forall i | 0 <= i < |items| :: items[i].Pair?
  }

  function Rows(items: seq<Item>): (rows: seq<Row>)
    requires AllPairs(items)
    ensures |rows| == |items|
  {
    if items == [] then []
    else Rows(Front(items)) + [Row(Strip(Last(items).key), Strip(Last(items).value))]
  }

  predicate IsReplaceable(c: Submitted) {
    c.Items? && AllPairs(c.items) && ItemsDistinct(Rows(c.items))
  }

  // ---- the object ------------------------------------------------------------------------

  class Config {
    var table: seq<Row>
    var sysConfig: Cache

    ghost function Value(): State
      reads this
    {
      State(table, sysConfig)
    }

    constructor (stored: seq<Row>)
      ensures Value() == State(stored, map[])
    {
      table, sysConfig := stored, map[];
    }

    method GetAllConfig()
      modifies `sysConfig
      ensures Value() == State(old(table), Load(old(table))) == Step(old(Value()), LoadOp)
    {
      var loaded: Cache := map[];
      for i := 0 to |table|
        invariant loaded == Load(table[..i])
      {
        assert Front(table[..i + 1]) == table[..i];
        var value := Str(table[i].value);
        if table[i].value == "true" || table[i].value == "True" {
          value := Flag(true);
        } else if table[i].value == "false" || table[i].value == "False" {
          value := Flag(false);
        }
        loaded := loaded[table[i].item := value];
      }
      assert table[..|table|] == table;
      sysConfig := loaded;
    }

    method GetValue(key: string, default: Option<Value>) returns (r: Option<Value>)
      modifies `sysConfig
      ensures table == old(table)
      ensures
        var (answer, cache) := Get(old(Value()), key);
        r == (if answer.Some? then answer else default) && sysConfig == cache
      ensures Value() == Step(old(Value()), GetOp(key))
    {
      var value := if key in sysConfig then Some(sysConfig[key]) else None;
      if value.Some? && IsTruthy(value.value) {
        return value;
      }
      var entry := Lookup(table, key);
      if entry.Some? {
        value := Some(FilterBool(entry.value));
      }
      if value.Some? && value.value.Str? && Strip(value.value.s) == "" {
        return default;
      }
      if value.Some? {
        sysConfig := sysConfig[key := value.value];
        return value;
      }
      return default;
    }

    method Set(key: string, value: Value)
      modifies this
      ensures Value() == State(Store(old(table), key, DbValue(value)), old(sysConfig)[key := value])
      ensures Value() == Step(old(Value()), SetOp(key, value))
    {
      var dbValue := if value == Flag(true) then "true" else if value == Flag(false) then "false" else value.s;
      table := Store(table, key, dbValue);
      sysConfig := sysConfig[key := value];
    }

    method Purge()
      modifies this
      ensures Value() == State([], map[]) == Step(old(Value()), PurgeOp)
    {
      table := [];
      sysConfig := map[];
    }

    /** `replace`: all or nothing in the table, and a fresh load in the cache either way. */
    method Replace(configs: Submitted) returns (ok: bool)
      modifies this
      ensures ok == IsReplaceable(configs)
      ensures table == if IsReplaceable(configs) then Rows(configs.items) else old(table)
      ensures sysConfig == Load(table) && Value() == Step(old(Value()), ReplaceOp(configs))
    {
      var saved := table;
      Purge();
      var created := BulkCreate(configs);
      if created.Some? {
        table := created.value;
      } else {
        table := saved;
      }
      GetAllConfig();
      return created.Some?;
    }

    /** Builds the new rows and inserts them into the emptied table; a malformed item or a repeated
        one raises. */
    static method BulkCreate(configs: Submitted) returns (rows: Option<seq<Row>>)
      ensures rows == if IsReplaceable(configs) then Some(Rows(configs.items)) else None
    {
      if configs.NotAList? {
        return None;
      }
      rows := BuildRows(configs.items);
      if rows.Some? {
        var unique := HasUniqueItems(rows.value);
        if !unique {
          return None;
        }
      }
    }

    /** The list comprehension over the items, which a malformed one ends. */
    static method BuildRows(items: seq<Item>) returns (rows: Option<seq<Row>>)
      ensures rows == if AllPairs(items) then Some(Rows(items)) else None
    {
      var built := [];
      for i := 0 to |items|
        invariant AllPairs(items[..i]) && built == Rows(items[..i])
      {
        if items[i].Malformed? {
          return None;
        }
        assert Front(items[..i + 1]) == items[..i];
        built := built + [Row(Strip(items[i].key), Strip(items[i].value))];
      }
      assert items[..|items|] == items;
      return Some(built);
    }

    /** The unique index on the item column. */
    static method HasUniqueItems(rows: seq<Row>) returns (unique: bool)
      ensures unique == ItemsDistinct(rows)
    {
      var seen: set<string> := {};
      for i := 0 to |rows|
        invariant seen == set j | 0 <= j < i :: rows[j].item
        invariant ItemsDistinct(rows[..i])
      {
        if rows[i].item in seen {
          return false;
        }
        seen := seen + {rows[i].item};
      }
      return true;
    }
  }

  // ---- laws of table and load ------------------------------------------------------------

  lemma {:induction false} LookupMissing(table: seq<Row>, k: string)
    requires forall r | r in table :: r.item != k
    ensures Lookup(table, k) == None
  {
    if table != [] {
      assert Last(table) in table;
      LookupMissing(Front(table), k);
    }
  }

  /** Storing changes the answer for one item only and keeps the items distinct. */
  lemma {:induction false} LookupStored(table: seq<Row>, key: string, value: string, k: string)
    requires ItemsDistinct(table)
    ensures Lookup(Store(table, key, value), k) == if k == key then Some(value) else Lookup(table, k)
  {
    if table != [] {
      var first, rest := table[0], table[1..];
      assert table == [first] + rest;
      LookupCons(first, rest, k);
      if first.item == key {
        LookupMissing(rest, key);
        LookupCons(Row(key, value), rest, k);
      } else {
        LookupStored(rest, key, value, k);
        LookupCons(first, Store(rest, key, value), k);
      }
    }
  }

  lemma {:induction false} StoreItems(table: seq<Row>, key: string, value: string)
    requires ItemsDistinct(table)
    ensures ItemsDistinct(Store(table, key, value))
    ensures forall r | r in Store(table, key, value) :: r == Row(key, value) || r in table
  {
    if table != [] && table[0].item != key {
      var rest := table[1..];
      StoreItems(rest, key, value);
      var stored := Store(rest, key, value);
      forall j | 0 <= j < |stored| ensures table[0].item != stored[j].item {
        assert stored[j] in stored;
      }
    }
  }

  lemma {:induction false} LookupCons(r: Row, rest: seq<Row>, k: string)
    ensures Lookup([r] + rest, k)
         == if Lookup(rest, k).Some? then Lookup(rest, k) else if r.item == k then Some(r.value) else None
  {
    var all := [r] + rest;
    if rest != [] {
      assert Front(all) == [r] + Front(rest) && Last(all) == Last(rest);
      LookupCons(r, Front(rest), k);
    } else {
      assert Front(all) == [];
    }
  }

  /** A fresh load holds, for each item of the table, the loaded value of its row. */
  lemma {:induction false} LoadLooksUp(table: seq<Row>, k: string)
    ensures (k in Load(table)) <==> Lookup(table, k).Some?
    ensures k in Load(table) ==> Load(table)[k] == LoadValue(Lookup(table, k).value)
  {
    if table != [] {
      LoadLooksUp(Front(table), k);
    }
  }

  // ---- transparency ----------------------------------------------------------------------

  /** A value the cache may hold in place of a stored string: what a read of the table gives. */
  predicate Answers(v: Value, stored: string) {
    IsTruthy(v) ==> v == FilterBool(stored) && !IsBlankString(v)
  }

  /** The cache agrees with the table on one key: a truthy value is what the table would answer,
      and a false one is not kept without a row. */
  predicate AgreesAt(s: State, key: string) {
    key in s.cache ==>
      match Lookup(s.table, key)
      case Some(stored) => Answers(s.cache[key], stored)
      case None => s.cache[key] == Str("")
  }

  ghost predicate IsTransparentAt(s: State, key: string) {
    Get(s, key).0 == Uncached(s.table, key)
  }

  /** Agreement is exactly what makes `get` answer as an uncached read does. */
  lemma TransparentExactly(s: State, key: string)
    ensures IsTransparentAt(s, key) <==> AgreesAt(s, key)
  {
    StripBlank("");
  }

  ghost predicate IsCoherent(s: State) {
    ItemsDistinct(s.table) && forall key :: AgreesAt(s, key)
  }

  datatype Op = GetOp(key: string) | SetOp(key: string, value: Value) | ReplaceOp(configs: Submitted) | PurgeOp | LoadOp

  function Step(s: State, op: Op): State {
    match op
    case GetOp(key) => s.(cache := Get(s, key).1)
    case SetOp(key, value) => State(Store(s.table, key, DbValue(value)), s.cache[key := value])
    case ReplaceOp(c) =>
      var table := if IsReplaceable(c) then Rows(c.items) else s.table;
      State(table, Load(table))
    case PurgeOp => State([], map[])
    case LoadOp => State(s.table, Load(s.table))
  }

  function Run(s: State, ops: seq<Op>): State {
    if ops == [] then s else Step(Run(s, Front(ops)), Last(ops))
  }

  /** A boolean, the empty string, or a string that is neither blank nor a spelling of a boolean. */
  predicate IsPlainSetting(v: Value) {
    v.Flag? || v.s == "" || (Strip(v.s) != "" && LowerAll(v.s) !in ["true", "false"])
  }

  /** A stored string that both normalisers read alike: empty, or not blank and, if it spells a
      boolean, in one of the four spellings. */
  predicate IsPlainStored(s: string) {
    s == "" || (Strip(s) != "" && (LowerAll(s) in ["true", "false"] ==> s in ["true", "True", "false", "False"]))
  }

  predicate HasPlainStrings(table: seq<Row>) {
    forall i | 0 <= i < |table| :: IsPlainStored(table[i].value)
  }

  /** What a caller can check before the call. */
  predicate IsPlainOp(s: State, op: Op) {
    match op
    case GetOp(_) => true
    case SetOp(_, value) => IsPlainSetting(value)
    case ReplaceOp(c) => HasPlainStrings(if IsReplaceable(c) then Rows(c.items) else s.table)
    case PurgeOp => true
    case LoadOp => HasPlainStrings(s.table)
  }

  lemma SpellingsOfBooleans()
    ensures LowerAll("true") == LowerAll("True") == "true" && LowerAll("false") == LowerAll("False") == "false"
    ensures LowerAll("") == "" && Strip("") == ""
  {
    assert LowerAll("true") == "true";
    assert LowerAll("True") == "true";
    assert LowerAll("false") == "false";
    assert LowerAll("False") == "false";
  }

  lemma LoadedAnswersExactly(stored: string)
    ensures Answers(LoadValue(stored), stored) <==> IsPlainStored(stored)
  {
    SpellingsOfBooleans();
    if stored in ["true", "True", "false", "False"] {
      assert !IsSpace(stored[0]);
      StripBlank(stored);
      assert LoadValue(stored) == FilterBool(stored);
    } else {
      assert LoadValue(stored) == Str(stored);
    }
  }

  lemma SetAnswersExactly(v: Value)
    ensures Answers(v, DbValue(v)) <==> IsPlainSetting(v)
  {
    SpellingsOfBooleans();
  }

  lemma {:induction false} LookupIn(table: seq<Row>, i: nat)
    requires ItemsDistinct(table) && i < |table|
    ensures Lookup(table, table[i].item) == Some(table[i].value)
  {
    if i < |table| - 1 {
      LookupIn(Front(table), i);
    }
  }

  lemma {:induction false} LookupFound(table: seq<Row>, k: string) returns (i: nat)
    requires Lookup(table, k).Some?
    ensures i < |table| && table[i] == Row(k, Lookup(table, k).value)
  {
    if Last(table).item == k {
      i := |table| - 1;
    } else {
      i := LookupFound(Front(table), k);
    }
  }

  lemma LoadCoherentExactly(table: seq<Row>)
    requires ItemsDistinct(table)
    ensures IsCoherent(State(table, Load(table))) <==> HasPlainStrings(table)
  {
    var s := State(table, Load(table));
    if HasPlainStrings(table) {
      forall key ensures AgreesAt(s, key) {
        LoadLooksUp(table, key);
        if key in s.cache {
          var i := LookupFound(table, key);
          LoadedAnswersExactly(table[i].value);
        }
      }
    } else {
      var i :| 0 <= i < |table| && !IsPlainStored(table[i].value);
      LookupIn(table, i);
      LoadLooksUp(table, table[i].item);
      LoadedAnswersExactly(table[i].value);
      assert !AgreesAt(s, table[i].item);
    }
  }

  lemma SetCoherentExactly(s: State, key: string, value: Value)
    requires IsCoherent(s)
    ensures IsCoherent(Step(s, SetOp(key, value))) <==> IsPlainSetting(value)
  {
    var s' := Step(s, SetOp(key, value));
    StoreItems(s.table, key, DbValue(value));
    SetAnswersExactly(value);
    LookupStored(s.table, key, DbValue(value), key);
    if IsPlainSetting(value) {
      forall k ensures AgreesAt(s', k) {
        LookupStored(s.table, key, DbValue(value), k);
        assert AgreesAt(s, k);
      }
    } else {
      assert !AgreesAt(s', key);
    }
  }

  /** One operation keeps a coherent cache coherent exactly when it is a plain one. */
  lemma StepCoherentExactly(s: State, op: Op)
    requires IsCoherent(s)
    ensures IsCoherent(Step(s, op)) <==> IsPlainOp(s, op)
  {
    match op
    case GetOp(key) => GetKeepsCoherent(s, key);
    case SetOp(key, value) => SetCoherentExactly(s, key, value);
    case ReplaceOp(c) => LoadCoherentExactly(if IsReplaceable(c) then Rows(c.items) else s.table);
    case PurgeOp =>
    case LoadOp => LoadCoherentExactly(s.table);
  }

  lemma GetKeepsCoherent(s: State, key: string)
    requires IsCoherent(s)
    ensures IsCoherent(Step(s, GetOp(key)))
  {
    var s' := Step(s, GetOp(key));
    StripBlank("");
    assert AgreesAt(s, key);
    forall k ensures AgreesAt(s', k) {
      assert AgreesAt(s, k);
    }
  }

  ghost predicate AllPlain(s: State, ops: seq<Op>) {
    ops != [] ==> AllPlain(s, Front(ops)) && IsPlainOp(Run(s, Front(ops)), Last(ops))
  }

  /** In every run of plain operations from a coherent state, `get` answers every key as an uncached read would. */
  lemma {:induction false} RunTransparent(s: State, ops: seq<Op>, key: string)
    requires IsCoherent(s) && AllPlain(s, ops)
    ensures IsCoherent(Run(s, ops)) && IsTransparentAt(Run(s, ops), key)
  {
    if ops != [] {
      RunTransparent(s, Front(ops), key);
      StepCoherentExactly(Run(s, Front(ops)), Last(ops));
    }
    assert AgreesAt(Run(s, ops), key);
    TransparentExactly(Run(s, ops), key);
  }

  /** So a fresh object over any table answers every key as an uncached read would, after any run
      of plain operations. */
  lemma FreshRunTransparent(table: seq<Row>, ops: seq<Op>, key: string)
    requires ItemsDistinct(table) && AllPlain(State(table, map[]), ops)
    ensures IsTransparentAt(Run(State(table, map[]), ops), key)
  {
    assert IsCoherent(State(table, map[]));
    RunTransparent(State(table, map[]), ops, key);
  }

  /** The replaced table is the given list, trimmed, in the same order. */
  lemma {:induction false} RowsAt(items: seq<Item>, i: nat)
    requires AllPairs(items) && i < |items|
    ensures Rows(items)[i] == Row(Strip(items[i].key), Strip(items[i].value))
  {
    if i < |items| - 1 {
      RowsAt(Front(items), i);
    }
  }

  // ---- what a setting is answered as -----------------------------------------------------

  /** By its characters, the string is `true`, or `false`, in any letter case. */
  predicate SpellsTrue(s: string) {
    |s| == 4 && s[0] in {'t', 'T'} && s[1] in {'r', 'R'} && s[2] in {'u', 'U'} && s[3] in {'e', 'E'}
  }

  predicate SpellsFalse(s: string) {
    && |s| == 5 && s[0] in {'f', 'F'} && s[1] in {'a', 'A'} && s[2] in {'l', 'L'} && s[3] in {'s', 'S'}
    && s[4] in {'e', 'E'}
  }

  lemma LowerSpells(s: string)
    ensures LowerAll(s) == "true" <==> SpellsTrue(s)
    ensures LowerAll(s) == "false" <==> SpellsFalse(s)
  {
    LowerAt(s);
    if SpellsTrue(s) {
      assert LowerAll(s) == "true";
    }
    if SpellsFalse(s) {
      assert LowerAll(s) == "false";
    }
  }

  /** The value of a stored string: a boolean for its spellings, nothing when blank, else itself. */
  function Meant(stored: string): Option<Value> {
    if SpellsTrue(stored) then Some(Flag(true))
    else if SpellsFalse(stored) then Some(Flag(false))
    else if Strip(stored) == "" then None
    else Some(Str(stored))
  }

  lemma SpelledNotBlank(s: string)
    requires SpellsTrue(s) || SpellsFalse(s)
    ensures Strip(s) != ""
  {
    var left, right := StripParts(s);
    assert !IsBlank(s) by {
      assert !IsSpace(s[0]);
    }
  }

  /** A key that is not cached is answered with what its row means, or the default without a row. */
  lemma AnsweredFromTable(s: State, key: string)
    requires key !in s.cache
    ensures Get(s, key).0 == match Lookup(s.table, key) case Some(stored) => Meant(stored) case None => None
  {
    if Lookup(s.table, key).Some? {
      LowerSpells(Lookup(s.table, key).value);
    }
  }

  /** An answer from the table is kept in the cache, under its key alone; the default is not. */
  lemma AnswerIsCached(s: State, key: string)
    ensures
      var (answer, cache) := Get(s, key);
      if answer.Some? then cache == s.cache[key := answer.value] else cache == s.cache
  {
  }

  /** After a load, the four usual spellings are answered as booleans, the empty string with the
      default, and every other string with itself, blanks and unusual spellings included. */
  lemma AnsweredAfterLoad(table: seq<Row>, key: string, stored: string)
    requires Lookup(table, key) == Some(stored)
    ensures Get(State(table, Load(table)), key).0
         == if stored in {"true", "True"} then Some(Flag(true))
            else if stored in {"false", "False"} then Some(Flag(false))
            else if stored == "" then None
            else Some(Str(stored))
  {
    LoadLooksUp(table, key);
    LowerSpells(stored);
    SpellingsOfBooleans();
    StripBlank("");
  }

  /** The operation leaves the setting alone. */
  predicate Leaves(op: Op, key: string) {
    op.GetOp? || op.LoadOp? || (op.SetOp? && op.key != key)
  }

  lemma {:induction false} RowStays(s: State, ops: seq<Op>, key: string)
    requires ItemsDistinct(s.table) && forall op | op in ops :: Leaves(op, key)
    ensures ItemsDistinct(Run(s, ops).table) && Lookup(Run(s, ops).table, key) == Lookup(s.table, key)
  {
    if ops != [] {
      assert Last(ops) in ops && forall op | op in Front(ops) :: op in ops;
      RowStays(s, Front(ops), key);
      var before := Run(s, Front(ops));
      if Last(ops).SetOp? {
        StoreItems(before.table, Last(ops).key, DbValue(Last(ops).value));
        LookupStored(before.table, Last(ops).key, DbValue(Last(ops).value), key);
      }
    }
  }

  /** What is set is what is read: after a boolean or a non-blank string that spells none is set,
      and any plain operations that leave the setting alone, `get` answers exactly it. */
  lemma SetGetRoundTrip(s: State, key: string, value: Value, ops: seq<Op>)
    requires IsCoherent(s) && (value.Str? ==> Meant(value.s) == Some(value))
    requires AllPlain(Step(s, SetOp(key, value)), ops) && forall op | op in ops :: Leaves(op, key)
    ensures Get(Run(Step(s, SetOp(key, value)), ops), key).0 == Some(value)
  {
    var s1 := Step(s, SetOp(key, value));
    var stored := match value case Flag(true) => "true" case Flag(false) => "false" case Str(text) => text;
    LowerSpells(stored);
    SetCoherentExactly(s, key, value);
    StoreItems(s.table, key, stored);
    LookupStored(s.table, key, stored, key);
    RowStays(s1, ops, key);
    RunTransparent(s1, ops, key);
    if value.Flag? {
      SpelledNotBlank(stored);
    }
  }

  /** What is replaced: exactly a list of pairs whose trimmed keys differ is stored, each pair
      trimmed, in order; all else leaves the table.  The cache is a load of the table in the end. */
  lemma ReplaceByItems(s: State, c: Submitted)
    ensures
      var s' := Step(s, ReplaceOp(c));
      var isStored := c.Items? && (forall i | 0 <= i < |c.items| :: c.items[i].Pair?)
        && forall i, j | 0 <= i < j < |c.items| :: Strip(c.items[i].key) != Strip(c.items[j].key);
      && (isStored ==> |s'.table| == |c.items| && forall i | 0 <= i < |c.items| ::
            s'.table[i] == Row(Strip(c.items[i].key), Strip(c.items[i].value)))
      && (!isStored ==> s'.table == s.table) && s'.cache == Load(s'.table)
  {
    if c.Items? && AllPairs(c.items) {
      forall i | 0 <= i < |c.items| ensures Rows(c.items)[i] == Row(Strip(c.items[i].key), Strip(c.items[i].value)) {
        RowsAt(c.items, i);
      }
    }
  }
}
