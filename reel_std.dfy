/**
 * The runtime's standard operations (reel_std.c): updates of scalar and
 * table variables, the predicates compiled scripts test, table binding, and
 * the fork engine that routes a trail's updates to a per-key child context.
 */
module ReelStd {
  import opened Reel
  import opened Growth

  /** `a + b` on uint64_t, which wraps modulo 2^64. */
  function Add64(a: u64, b: u64): (r: u64)
    ensures r == if a + b < U64_MODULUS then a + b else a + b - U64_MODULUS
  {
    (a + b) % U64_MODULUS
  }

  /** `a - b` on uint64_t, which wraps modulo 2^64. */
  function Sub64(a: u64, b: u64): (r: u64)
    ensures r == if b <= a then a - b else a - b + U64_MODULUS
  {
    (a - b) % U64_MODULUS
  }

  /* ---------------- scalar variables ---------------- */

  /** reelfunc_inc_uintptr_uint: `*lval += rval` on variable `i`. */
  method IncUint(ctx: Context, i: nat, rval: u64)
    requires i < |ctx.vars|
    modifies ctx`vars
    ensures ctx.vars == old(ctx.vars)[i := old(ctx.vars[i]).(value := Add64(old(ctx.vars[i].value), rval))]
  {
    ctx.vars := ctx.vars[i := ctx.vars[i].(value := Add64(ctx.vars[i].value, rval))];
  }

  /** reelfunc_set_uintptr_uint and reelfunc_set_itemptr_item: `*lval = rval`. */
  method SetValue(ctx: Context, i: nat, rval: u64)
    requires i < |ctx.vars|
    modifies ctx`vars
    ensures ctx.vars == old(ctx.vars)[i := old(ctx.vars[i]).(value := rval)]
  {
    ctx.vars := ctx.vars[i := ctx.vars[i].(value := rval)];
  }

  /** reelfunc_set_uintptr_uintptr and reelfunc_set_itemptr_itemptr: `*lval = *rval`. */
  method CopyValue(ctx: Context, i: nat, j: nat)
    requires i < |ctx.vars| && j < |ctx.vars|
    modifies ctx`vars
    ensures ctx.vars == old(ctx.vars)[i := old(ctx.vars[i]).(value := old(ctx.vars[j].value))]
  {
    ctx.vars := ctx.vars[i := ctx.vars[i].(value := ctx.vars[j].value)];
  }

  /** reelfunc_unset_itemptr and reelfunc_unset_uintptr: `*val = 0`. */
  method UnsetValue(ctx: Context, i: nat)
    requires i < |ctx.vars|
    modifies ctx`vars
    ensures ctx.vars == old(ctx.vars)[i := old(ctx.vars[i]).(value := 0)]
  {
    ctx.vars := ctx.vars[i := ctx.vars[i].(value := 0)];
  }

  /* ---------------- table variables ---------------- */

  /**
   * A table as reel_init_table leaves it: one slot per value of the bound
   * field's lexicon (none when unbound), backed by an array when nonempty.
   */
  predicate TableBound(v: Var, db: Db) {
    && v.tableLength == LexiconSize(db, v.tableField)
    && (v.table != null ==> v.table.Length == v.tableLength)
    && (v.tableLength > 0 ==> v.table != null)
  }

  /** The guard of the element-wise increment: both tables hold UINTs of one field. */
  predicate TablesMatch(lval: Var, rval: Var) {
    && lval.tableValueType == Uint
    && lval.tableField == rval.tableField
    && lval.tableValueType == rval.tableValueType
  }

  /** The slot the event selects: the value index of its item for the table's field. */
  function Slot(v: Var, ev: Event, db: Db): nat
    requires 0 < v.tableField <= |ev.items|
  {
    db.itemVal(ev.items[v.tableField - 1])
  }

  /** The event has an item for the table's field and its value indexes a slot. */
  predicate SlotInRange(v: Var, ev: Event, db: Db) {
    0 < v.tableField <= |ev.items| && Slot(v, ev, db) < v.tableLength
  }

  /**
   * reelfunc_inc_tableptr_tableptr: adds `rval`'s slots into `lval`'s, or
   * records a table mismatch and changes no slot.
   */
  method IncTable(ctx: Context, lval: Var, rval: Var)
    requires TableBound(lval, ctx.db) && TableBound(rval, ctx.db)
    modifies ctx`error, lval.table
    ensures !TablesMatch(lval, rval) ==>
              ctx.error == REEL_TABLE_MISMATCH && (lval.table != null ==> unchanged(lval.table))
    ensures TablesMatch(lval, rval) ==> ctx.error == old(ctx.error)
    ensures TablesMatch(lval, rval) ==>
              forall k | 0 <= k < lval.tableLength :: lval.table[k] == Add64(old(lval.table[k]), old(rval.table[k]))
    ensures TablesMatch(lval, rval) && rval.table != null && rval.table != lval.table ==> unchanged(rval.table)
  {
    if !(lval.tableValueType == Uint &&
         lval.tableField == rval.tableField &&
         lval.tableValueType == rval.tableValueType) {
      ctx.error := REEL_TABLE_MISMATCH;
    } else {
      var dst := lval.table;
      var src := rval.table;
      var i := 0;
      while i < lval.tableLength
        invariant 0 <= i <= lval.tableLength
        invariant forall k | 0 <= k < i :: dst[k] == Add64(old(dst[k]), old(src[k]))
        invariant forall k | i <= k < lval.tableLength :: dst[k] == old(dst[k])
        invariant src != null && src != dst ==> unchanged(src)
        invariant ctx.error == old(ctx.error)
      {
        dst[i] := Add64(dst[i], src[i]);
        i := i + 1;
      }
    }
  }

  /**
   * reelfunc_set_tableitem_uint: writes `rval` into the slot the event
   * selects; a non-UINT table is a mismatch and an unbound table is left alone.
   */
  method SetTableItem(ctx: Context, ev: Event, lval: Var, rval: u64)
    requires TableBound(lval, ctx.db)
    requires lval.tableValueType == Uint && lval.tableField != 0 ==> SlotInRange(lval, ev, ctx.db)
    modifies ctx`error, lval.table
    ensures lval.tableValueType != Uint ==>
              ctx.error == REEL_TABLE_MISMATCH && (lval.table != null ==> unchanged(lval.table))
    ensures lval.tableValueType == Uint ==> ctx.error == old(ctx.error)
    ensures lval.tableValueType == Uint && lval.tableField == 0 && lval.table != null ==> unchanged(lval.table)
    ensures lval.tableValueType == Uint && lval.tableField != 0 ==>
              lval.table[..] == old(lval.table[..])[Slot(lval, ev, ctx.db) := rval]
  {
    if lval.tableValueType != Uint {
      ctx.error := REEL_TABLE_MISMATCH;
    } else if lval.tableField != 0 {
      var dst := lval.table;
      dst[ctx.db.itemVal(ev.items[lval.tableField - 1])] := rval;
    }
  }

  /**
   * reelfunc_set_uintptr_tableitem: variable `i` takes the slot the event
   * selects, or 0 from an unbound table; a non-UINT table is a mismatch and
   * leaves the variable alone.
   */
  method SetUintFromTableItem(ctx: Context, ev: Event, i: nat, rval: Var)
    requires i < |ctx.vars| && TableBound(rval, ctx.db)
    requires rval.tableValueType == Uint && rval.tableField != 0 ==> SlotInRange(rval, ev, ctx.db)
    modifies ctx`vars, ctx`error
    ensures rval.tableValueType != Uint ==>
              ctx.error == REEL_TABLE_MISMATCH && ctx.vars == old(ctx.vars)
    ensures rval.tableValueType == Uint && rval.tableField != 0 ==>
              ctx.error == old(ctx.error) &&
              ctx.vars == old(ctx.vars)[i := old(ctx.vars[i]).(value := rval.table[Slot(rval, ev, ctx.db)])]
    ensures rval.tableValueType == Uint && rval.tableField == 0 ==>
              ctx.error == old(ctx.error) && ctx.vars == old(ctx.vars)[i := old(ctx.vars[i]).(value := 0)]
  {
    if rval.tableValueType != Uint {
      ctx.error := REEL_TABLE_MISMATCH;
    } else if rval.tableField != 0 {
      var src := rval.table;
      ctx.vars := ctx.vars[i := ctx.vars[i].(value := src[ctx.db.itemVal(ev.items[rval.tableField - 1])])];
    } else {
      ctx.vars := ctx.vars[i := ctx.vars[i].(value := 0)];
    }
  }

  /** reelfunc_unset_tableptr: zeroes every slot of a bound table. */
  method UnsetTable(ctx: Context, val: Var)
    requires TableBound(val, ctx.db)
    modifies val.table
    ensures val.tableField != 0 ==> forall k | 0 <= k < val.tableLength :: val.table[k] == 0
    ensures val.tableField == 0 && val.table != null ==> unchanged(val.table)
  {
    if val.tableField != 0 {
      var dst := val.table;
      forall k | 0 <= k < val.tableLength {
        dst[k] := 0;
      }
    }
  }

  /** reelfunc_unset_tableitem: zeroes the slot the event selects in a bound table. */
  method UnsetTableItem(ctx: Context, ev: Event, val: Var)
    requires TableBound(val, ctx.db)
    requires val.tableField != 0 ==> SlotInRange(val, ev, ctx.db)
    modifies val.table
    ensures val.tableField != 0 ==> val.table[..] == old(val.table[..])[Slot(val, ev, ctx.db) := 0]
    ensures val.tableField == 0 && val.table != null ==> unchanged(val.table)
  {
    if val.tableField != 0 {
      var dst := val.table;
      dst[ctx.db.itemVal(ev.items[val.tableField - 1])] := 0;
    }
  }

  /* ---------------- predicates (C truth values: 0 or 1) ---------------- */

  /** reelfunc_if_item, _if_itemptr, _if_uint, _if_uintptr: the value is set. */
  function IfNonZero(val: u64): (r: int)
    ensures r == 0 || r == 1
    ensures r == 1 <==> val != 0
  {
    if val != 0 then 1 else 0
  }

  /** reelfunc_if_item_item, _if_item_itemptr, _if_itemptr_item, _if_uintptr_uint, _if_uintptr_uintptr. */
  function IfEqual(lval: u64, rval: u64): (r: int)
    ensures r == 0 || r == 1
    ensures r == 1 <==> lval == rval
  {
    if lval == rval then 1 else 0
  }

  /**
   * reelfunc_within_time_uintptr_uint: the event happened at most `rval - 1`
   * time units before `lval`. The guard keeps the unsigned subtraction from
   * wrapping for events later than `lval`.
   */
  function WithinTime(lval: u64, ev: Event, rval: u64): (r: int)
    ensures r == 0 || r == 1
    ensures r == 1 <==> ev.timestamp <= lval < ev.timestamp + rval
  {
    if lval < ev.timestamp then 0
    else if Sub64(lval, ev.timestamp) < rval then 1 else 0
  }

  /** reelfunc_if_greater_uint_uintptr. */
  function IfGreater(lval: u64, rval: u64): (r: int)
    ensures r == 0 || r == 1
    ensures r == 1 <==> lval > rval
  {
    if lval > rval then 1 else 0
  }

  /* ---------------- binding tables and resolving names ---------------- */

  /**
   * reel_init_table: binds a table variable to a field. An unknown field
   * gives the empty unbound table and success; a known one gets one zero
   * slot per lexicon value, or -1 when allocation fails (the field and
   * length are then already set but the slots are not).
   */
  method InitTable(v: Var, db: Db, fieldName: string) returns (r: Var, rc: int)
    ensures fieldName !in db.fieldIds ==>
              rc == 0 && r == v.(value := 0, table := null, tableField := 0, tableLength := 0)
    ensures fieldName in db.fieldIds ==>
              && (rc == 0 || rc == -1)
              && r.tableField == db.fieldIds[fieldName]
              && r.tableLength == LexiconSize(db, r.tableField)
    ensures fieldName in db.fieldIds && rc == 0 ==>
              && r == v.(table := r.table, tableField := r.tableField, tableLength := r.tableLength)
              && r.table != null && fresh(r.table) && TableBound(r, db)
              && forall k | 0 <= k < r.tableLength :: r.table[k] == 0
    ensures fieldName in db.fieldIds && rc == -1 ==>
              r == v.(tableField := r.tableField, tableLength := r.tableLength)
  {
    if fieldName !in db.fieldIds {
      return v.(value := 0, table := null, tableField := 0, tableLength := 0), 0;
    }
    var field := db.fieldIds[fieldName];
    r := v.(tableField := field, tableLength := LexiconSize(db, field));
    var p := Calloc(r.tableLength);
    if p == null {
      return r, -1;
    }
    r := r.(table := p);
    rc := 0;
  }

  /** reel_resolve_field: 0 stands both for an unknown name and for field 0. */
  function ResolveField(db: Db, fieldName: string): (field: nat)
    ensures fieldName !in db.fieldIds ==> field == 0
    ensures fieldName in db.fieldIds ==> field == db.fieldIds[fieldName]
    ensures field != 0 ==> fieldName in db.fieldIds && db.fieldIds[fieldName] == field
  {
    if fieldName in db.fieldIds then db.fieldIds[fieldName] else 0
  }

  /** reel_resolve_item_literal: the item of `value` in the named field, 0 if either is unknown. */
  function ResolveItemLiteral(db: Db, fieldName: string, value: string): (item: u64)
    ensures fieldName !in db.fieldIds ==> item == 0
    ensures fieldName in db.fieldIds ==> item == db.getItem(ResolveField(db, fieldName), value)
  {
    if fieldName in db.fieldIds then db.getItem(db.fieldIds[fieldName], value) else 0
  }

  /* ---------------- fork engine ---------------- */

  /**
   * reel_fork: the first fork of `key` in a trail marks it evaluated,
   * activates the key's child (creating it as a copy of `ctx` when the key
   * has none) and returns 1. A key already forked in this trail returns 0
   * and changes nothing. A failed allocation records REEL_FORK_FAILED,
   * returns 0 and leaves the key marked with a null child entry.
   */
  method Fork(ctx: Context, key: u64) returns (rc: int)
    requires ctx.root != null
    modifies ctx`child, ctx`error, ctx.root`childContexts, ctx.root`evaluatedContexts
    ensures ctx.root.evaluatedContexts == old(ctx.root.evaluatedContexts) + {key}
    ensures rc == 1 ==> key !in old(ctx.root.evaluatedContexts)
    ensures old(key in ctx.root.evaluatedContexts) ==>
              && rc == 0 && ctx.child == old(ctx.child) && ctx.error == old(ctx.error)
              && ctx.root.childContexts == old(ctx.root.childContexts)
    ensures old(key !in ctx.root.evaluatedContexts && key in ctx.root.childContexts
                && ctx.root.childContexts[key] != null) ==>
              && rc == 1 && ctx.child == old(ctx.root.childContexts[key]) && ctx.error == old(ctx.error)
              && ctx.root.childContexts == old(ctx.root.childContexts)
    ensures old(key !in ctx.root.evaluatedContexts && (key !in ctx.root.childContexts
                || ctx.root.childContexts[key] == null)) ==>
              if rc == 1 then
                && ctx.child != null && fresh(ctx.child)
                && ctx.root.childContexts == old(ctx.root.childContexts)[key := ctx.child]
                && ctx.error == old(ctx.error)
                && ctx.child.vars == old(ctx.vars) && ctx.child.db == ctx.db
                && ctx.child.root == ctx.root && ctx.child.child == old(ctx.child)
                && ctx.child.error == old(ctx.error)
                && ctx.child.childContexts == map[] && ctx.child.evaluatedContexts == {}
              else
                && rc == 0 && ctx.error == REEL_FORK_FAILED && ctx.child == old(ctx.child)
                && ctx.root.childContexts == old(ctx.root.childContexts)[key := null]
  {
    var root := ctx.root;
    if key in root.evaluatedContexts {
      return 0;
    }
    root.evaluatedContexts := root.evaluatedContexts + {key};
    if key !in root.childContexts {
      root.childContexts := root.childContexts[key := null];
    }
    if root.childContexts[key] == null {
      var ok: bool := *;
      if !ok {
        ctx.error := REEL_FORK_FAILED;
        return 0;
      }
      var c := new Context.CopyOf(ctx);
      root.childContexts := root.childContexts[key := c];
    }
    ctx.child := root.childContexts[key];
    return 1;
  }

  /** reelfunc_fork_uintptr: forks on the value of variable `i`. */
  method ForkOnVar(ctx: Context, i: nat) returns (rc: int)
    requires ctx.root != null && i < |ctx.vars|
    modifies ctx`child, ctx`error, ctx.root`childContexts, ctx.root`evaluatedContexts
    ensures ctx.vars == old(ctx.vars)
    ensures ctx.root.evaluatedContexts == old(ctx.root.evaluatedContexts) + {ctx.vars[i].value}
    ensures rc == 1 ==> ctx.vars[i].value !in old(ctx.root.evaluatedContexts)
    ensures old(ctx.vars[i].value in ctx.root.evaluatedContexts) ==>
              && rc == 0 && ctx.child == old(ctx.child) && ctx.error == old(ctx.error)
              && ctx.root.childContexts == old(ctx.root.childContexts)
    ensures old(ctx.vars[i].value !in ctx.root.evaluatedContexts && ctx.vars[i].value in ctx.root.childContexts
                && ctx.root.childContexts[ctx.vars[i].value] != null) ==>
              && rc == 1 && ctx.child == old(ctx.root.childContexts[ctx.vars[i].value]) && ctx.error == old(ctx.error)
              && ctx.root.childContexts == old(ctx.root.childContexts)
    ensures old(ctx.vars[i].value !in ctx.root.evaluatedContexts && (ctx.vars[i].value !in ctx.root.childContexts
                || ctx.root.childContexts[ctx.vars[i].value] == null)) ==>
              if rc == 1 then
                && ctx.child != null && fresh(ctx.child)
                && ctx.root.childContexts == old(ctx.root.childContexts)[ctx.vars[i].value := ctx.child]
                && ctx.error == old(ctx.error)
                && ctx.child.vars == old(ctx.vars) && ctx.child.db == ctx.db
                && ctx.child.root == ctx.root && ctx.child.child == old(ctx.child)
                && ctx.child.error == old(ctx.error)
                && ctx.child.childContexts == map[] && ctx.child.evaluatedContexts == {}
              else
                && rc == 0 && ctx.error == REEL_FORK_FAILED && ctx.child == old(ctx.child)
                && ctx.root.childContexts == old(ctx.root.childContexts)[ctx.vars[i].value := null]
  {
    rc := Fork(ctx, ctx.vars[i].value);
  }

  /** reelfunc_fork_reset_active: a new trail may fork every key again; children are kept. */
  method ForkResetActive(ctx: Context)
    requires ctx.root != null
    modifies ctx.root`evaluatedContexts
    ensures ctx.root.evaluatedContexts == {}
    ensures ctx.root.childContexts == old(ctx.root.childContexts)
  {
    ctx.root.evaluatedContexts := {};
  }

  /** The evaluated set after forking `keys` in order within one trail. */
  function Marked(evaluated: set<u64>, keys: seq<u64>): set<u64>
    decreases |keys|
  {
    if keys == [] then evaluated else Marked(evaluated + {keys[0]}, keys[1..])
  }

  /** Forking a sequence of keys marks exactly those keys. */
  lemma {:induction false} MarkedIsUnion(evaluated: set<u64>, keys: seq<u64>)
    ensures Marked(evaluated, keys) == evaluated + set k | k in keys
    decreases |keys|
  {
    if keys != [] {
      MarkedIsUnion(evaluated + {keys[0]}, keys[1..]);
      assert (set k | k in keys) == {keys[0]} + set k | k in keys[1..];
    }
  }

  /**
   * One more fork extends the fold exactly as Fork extends the root's
   * evaluated set (`evaluatedContexts == old(evaluatedContexts) + {key}`),
   * so after Fork has run on `keys` in order from `evaluated`, with no
   * reset between, the evaluated set is `Marked(evaluated, keys)`.
   */
  lemma MarkedSnoc(evaluated: set<u64>, keys: seq<u64>, key: u64)
    ensures Marked(evaluated, keys + [key]) == Marked(evaluated, keys) + {key}
  {
    MarkedIsUnion(evaluated, keys);
    MarkedIsUnion(evaluated, keys + [key]);
    assert (set k | k in keys + [key]) == (set k | k in keys) + {key};
  }

  /**
   * Within one trail (no reset between the forks), the fork of `keys[j]`
   * can create or activate a child, that is return 1, exactly when its key
   * was not evaluated at the start of the trail and no earlier fork of the
   * trail used it: every key forks at most once per trail.
   */
  lemma ForkAtMostOncePerTrail(evaluated: set<u64>, keys: seq<u64>, j: nat)
    requires j < |keys|
    ensures keys[j] !in Marked(evaluated, keys[..j]) <==>
              keys[j] !in evaluated && forall i | 0 <= i < j :: keys[i] != keys[j]
  {
    MarkedIsUnion(evaluated, keys[..j]);
    if exists i | 0 <= i < j :: keys[i] == keys[j] {
      var i :| 0 <= i < j && keys[i] == keys[j];
      assert keys[..j][i] == keys[j];
    }
  }

  /** JLF finds the first key of the key order. */
  lemma FirstInKeyOrder(s: set<u64>, key: u64)
    requires IsLeast(key, s)
    ensures |SortedKeys(s)| > 0 && SortedKeys(s)[0] == key
  {
    var m := SetMin(s);
    assert m <= key && key <= m;
  }

  /**
   * After the `n`th key of the key order, JLN finds the next one, or
   * nothing when it was the last.
   */
  lemma NextInKeyOrder(s: set<u64>, n: nat, found: bool, key: u64)
    requires n < |SortedKeys(s)|
    requires found <==> exists x | x in s :: SortedKeys(s)[n] < x
    requires found ==> IsNextAbove(key, s, SortedKeys(s)[n])
    ensures found ==> n + 1 < |SortedKeys(s)| && SortedKeys(s)[n + 1] == key
    ensures !found ==> n + 1 == |SortedKeys(s)|
  {
    var sorted := SortedKeys(s);
    SortedKeysAscending(s);
    SortedKeysMembers(s);
    if found {
      assert key in sorted;
      var j :| 0 <= j < |sorted| && sorted[j] == key;
      assert n < j;
      assert sorted[n + 1] in s;
      assert sorted[n + 1] == key;
    } else {
      var last := |sorted| - 1;
      assert sorted[last] in sorted;
      assert sorted[last] <= sorted[n];
    }
  }

  /** JLF on a child map: its first key in key order, if it has any. */
  method JudyFirst(m: map<u64, Context?>) returns (found: bool, key: u64)
    ensures found <==> 0 < |SortedKeys(m.Keys)|
    ensures found ==> key == SortedKeys(m.Keys)[0] && key in m
  {
    found := m.Keys != {};
    key := 0;
    if found {
      assert IsLeast(SetMin(m.Keys), m.Keys);
      key :| IsLeast(key, m.Keys);
      FirstInKeyOrder(m.Keys, key);
    }
  }

  /**
   * JLN on a child map: the least key above `after`, if there is one. When
   * `after` is the `n`th key in key order, that is the `n + 1`st.
   */
  method JudyNext(m: map<u64, Context?>, after: u64, ghost n: nat) returns (found: bool, key: u64)
    requires n < |SortedKeys(m.Keys)| && after == SortedKeys(m.Keys)[n]
    ensures found <==> n + 1 < |SortedKeys(m.Keys)|
    ensures found ==> key == SortedKeys(m.Keys)[n + 1] && key in m
  {
    var above := set x | x in m.Keys && after < x;
    found := above != {};
    key := 0;
    if found {
      var least := SetMin(above);
      assert forall x | x in m.Keys && after < x :: x in above;
      assert IsNextAbove(least, m.Keys, after);
      key :| IsNextAbove(key, m.Keys, after);
    } else {
      assert forall x | x in m :: x !in above;
    }
    NextInKeyOrder(m.Keys, n, found, key);
  }

  /** ChildrenAt lists the child of each key in turn. */
  lemma {:induction false} ChildrenAtIndex(m: map<u64, Context?>, keys: seq<u64>, n: nat)
    requires forall k | k in keys :: k in m
    requires n < |keys|
    ensures ChildrenAt(m, keys)[n] == m[keys[n]]
  {
    if n > 0 {
      ChildrenAtIndex(m, keys[1..], n - 1);
    }
  }

  /** The `n`th child in key order is the child of the `n`th key. */
  lemma ChildAt(m: map<u64, Context?>, n: nat)
    requires n < |m.Keys|
    ensures SortedKeys(m.Keys)[n] in m && ChildrenInKeyOrder(m)[n] == m[SortedKeys(m.Keys)[n]]
  {
    SortedKeysMembers(m.Keys);
    assert SortedKeys(m.Keys)[n] in SortedKeys(m.Keys);
    ChildrenAtIndex(m, SortedKeys(m.Keys), n);
  }

  /** The children stored under `keys`, in the order of `keys`. */
  ghost function ChildrenAt(m: map<u64, Context?>, keys: seq<u64>): (r: seq<Context?>)
    requires forall k | k in keys :: k in m
    ensures |r| == |keys|
  {
    if keys == [] then [] else [m[keys[0]]] + ChildrenAt(m, keys[1..])
  }

  /** The children of a Judy child map in ascending key order. */
  ghost function ChildrenInKeyOrder(m: map<u64, Context?>): (r: seq<Context?>)
    ensures |r| == |m.Keys|
  {
    SortedKeysMembers(m.Keys);
    ChildrenAt(m, SortedKeys(m.Keys))
  }

  /**
   * reel_get_forks: stores the children of `ctx` in ascending key order at
   * the front of `ctxs` and returns their number. The caller's array must
   * hold them all (see README: the source's growth path does not reach it).
   */
  method GetForks(ctx: Context, ctxs: array<Context?>) returns (numCtxs: nat)
    requires |ctx.childContexts.Keys| <= ctxs.Length
    modifies ctxs
    ensures numCtxs == |ctx.childContexts.Keys|
    ensures ctxs[..numCtxs] == ChildrenInKeyOrder(ctx.childContexts)
    ensures ctxs[numCtxs..] == old(ctxs[numCtxs..])
  {
    var m := ctx.childContexts;
    numCtxs := |m.Keys|;
    ghost var sorted := SortedKeys(m.Keys);
    ghost var children := ChildrenInKeyOrder(m);
    var n := 0;
    var found, key := JudyFirst(m);
    while found
      invariant n <= numCtxs
      invariant found ==> n < numCtxs && key == sorted[n] && key in m
      invariant !found ==> n == numCtxs
      invariant forall p | 0 <= p < n :: ctxs[p] == children[p]
      invariant forall p | n <= p < ctxs.Length :: ctxs[p] == old(ctxs[p])
      decreases numCtxs - n
    {
      ChildAt(m, n);
      ctxs[n] := m[key];
      found, key := JudyNext(m, key, n);
      n := n + 1;
    }
  }
}
