/**
 * The shared types of the Reel runtime (reel.h): variable kinds, error codes,
 * the variable record, the event and event-store views the runtime consumes,
 * and the evaluation context with its sparse child map.
 */
module Reel {

  /** Unsigned 64-bit machine words (uint64_t, Word_t, tdb_item). */
  const U64_MODULUS: int := 0x1_0000_0000_0000_0000
  type u64 = x: int | 0 <= x < U64_MODULUS

  /** reel_var_type: REEL_UINT = 1, REEL_ITEM = 2, REEL_UINTTABLE = 3. */
  datatype VarType = Uint | Item | UintTable

  /** reel_error */
  const REEL_OUT_OF_MEMORY: int := -1
  const REEL_FORK_FAILED: int := -2
  const REEL_SETPOS_OUT_OF_BOUNDS: int := 3
  const REEL_TABLE_MISMATCH: int := -200

  /** reel_parse_error */
  const REEL_PARSE_OK: int := 0
  const REEL_PARSE_UNKNOWN_VARIABLE: int := -1
  const REEL_PARSE_INVALID_VALUE: int := -2
  const REEL_PARSE_UNKNOWN_FIELD: int := 1
  const REEL_PARSE_EMPTY_TABLE: int := 2
  const REEL_PARSE_VALUE_UNKNOWN: int := 3
  const REEL_PARSE_SOME_VALUES_UNKNOWN: int := 4

  /** reel_flags */
  const REEL_FLAG_IS_CONST: u64 := 1

  /**
   * reel_var. The C `value` word is a number for Uint and Item variables and a
   * pointer to the table's slots for UintTable variables; here the number is
   * `value` and the pointer is `table` (null standing for the word 0).
   * Table slots are shared by reference: copying a Var copies the pointer.
   */
  datatype Var = Var(
    kind: VarType,
    name: string,
    value: u64,
    table: array?<u64>,
    tableLength: nat,
    tableField: nat,
    tableValueType: VarType,
    flags: u64)

  /** The C `value` word of a variable is nonzero. */
  predicate WordNonZero(v: Var) {
    if v.kind == UintTable then v.table != null else v.value != 0
  }

  /** tdb_event: a timestamp and the event's items, one per non-time field. */
  datatype Event = Event(timestamp: u64, items: seq<u64>)

  /**
   * The parts of an opened TrailDB the runtime consults: field ids by name
   * (tdb_get_field), each field's lexicon of value texts (tdb_lexicon_size,
   * tdb_get_value), the value index carried by an item (tdb_item_val), an
   * item's value text (tdb_get_item_value) and item lookup by value text
   * (tdb_get_item, 0 when the value is unknown).
   */
  datatype Db = Db(
    fieldIds: map<string, nat>,
    lexicons: map<nat, seq<string>>,
    itemVal: u64 -> nat,
    itemText: u64 -> string,
    getItem: (nat, string) -> u64)

  /** tdb_lexicon_size: field 0 (the timestamp) and unknown fields have none. */
  function LexiconSize(db: Db, field: nat): nat {
    if field != 0 && field in db.lexicons then |db.lexicons[field]| else 0
  }

  /** tdb_get_value: the text of value `k` of `field`. */
  function LexiconValue(db: Db, field: nat, k: nat): string {
    if k < LexiconSize(db, field) then db.lexicons[field][k] else ""
  }

  /**
   * reel_ctx: the variables of one aggregate, the store it reads, the root of
   * its tree, the context a fork last activated, and (on the root) the Judy
   * map from fork key to child and the Judy set of keys forked in the
   * current trail. A child entry is null when allocating it failed.
   */
  class Context {
    var vars: seq<Var>
    const db: Db
    var root: Context?
    var child: Context?
    var childContexts: map<u64, Context?>
    var evaluatedContexts: set<u64>
    var error: int

    /** A fresh root: it is its own root and has no children. */
    constructor Root(vars: seq<Var>, db: Db)
      ensures this.vars == vars && this.db == db && root == this && child == null
      ensures childContexts == map[] && evaluatedContexts == {} && error == 0
    {
      this.vars := vars;
      this.db := db;
      child := null;
      childContexts := map[];
      evaluatedContexts := {};
      error := 0;
      new;
      root := this;
    }

    /**
     * A byte copy of `src` whose child map and evaluated set are then
     * emptied: its variables, and so its table pointers, are `src`'s.
     */
    constructor CopyOf(src: Context)
      ensures vars == src.vars && db == src.db && root == src.root
      ensures child == src.child && error == src.error
      ensures childContexts == map[] && evaluatedContexts == {}
    {
      vars := src.vars;
      db := src.db;
      root := src.root;
      child := src.child;
      error := src.error;
      childContexts := map[];
      evaluatedContexts := {};
    }
  }

  /** `key` is the least element of `s`. */
  predicate IsLeast(key: u64, s: set<u64>) {
    key in s && forall x | x in s :: key <= x
  }

  /** `key` is the least element of `s` above `after`. */
  predicate IsNextAbove(key: u64, s: set<u64>, after: u64) {
    key in s && after < key && forall x | x in s && after < x :: key <= x
  }

  /** The least key of a nonempty key set (JLF / J1F). */
  ghost function SetMin(s: set<u64>): (m: u64)
    requires s != {}
    ensures m in s && forall x | x in s :: m <= x
  {
    var x :| x in s;
    assert forall z | z in s && z != x :: z in s - {x};
    if s - {x} == {} then x
    else
      var y := SetMin(s - {x});
      if x <= y then x else y
  }

  /**
   * The keys of a Judy array in the order JLF/JLN visit them: each step
   * visits the least key not yet visited.
   */
  ghost function SortedKeys(s: set<u64>): (r: seq<u64>)
    ensures |r| == |s|
    decreases |s|
  {
    if s == {} then []
    else
      var m := SetMin(s);
      [m] + SortedKeys(s - {m})
  }

  /** JLF/JLN visit every key and only keys of the array. */
  lemma {:induction false} SortedKeysMembers(s: set<u64>)
    ensures forall k :: k in SortedKeys(s) <==> k in s
    decreases |s|
  {
    if s != {} {
      var m := SetMin(s);
      SortedKeysMembers(s - {m});
    }
  }

  /** Strictly ascending. */
  predicate Ascending(r: seq<u64>) {
    forall i, j | 0 <= i < j < |r| :: r[i] < r[j]
  }

  /** JLF/JLN visit the keys in strictly ascending order. */
  lemma {:induction false} SortedKeysAscending(s: set<u64>)
    ensures Ascending(SortedKeys(s))
    decreases |s|
  {
    if s != {} {
      var m := SetMin(s);
      var t := s - {m};
      SortedKeysAscending(t);
      SortedKeysMembers(t);
      var q := SortedKeys(t);
      assert forall j | 0 <= j < |q| :: m < q[j] by {
        forall j | 0 <= j < |q| ensures m < q[j] { assert q[j] in q; }
      }
      AscendingCons(m, q);
      assert SortedKeys(s) == [m] + q;
    }
  }

  /** A key below every key of an ascending sequence may be put in front of it. */
  lemma AscendingCons(m: u64, q: seq<u64>)
    requires Ascending(q) && forall j | 0 <= j < |q| :: m < q[j]
    ensures Ascending([m] + q)
  {
    var r := [m] + q;
    forall i, j | 0 <= i < j < |r| ensures r[i] < r[j] {
      assert r[j] == q[j-1];
      if i > 0 { assert r[i] == q[i-1]; }
    }
  }

  /** Concatenation regroups. */
  lemma AppendAssoc<T>(a: seq<T>, b: seq<T>, c: seq<T>)
    ensures a + b + c == a + (b + c)
  {
  }
}
