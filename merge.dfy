/**
 * The merge of a field mask into a document value: the mask's paths are read
 * in order and grouped into batches of consecutive paths with the same
 * parent; each batch is applied to the map at its parent in one rewrite.
 *
 * `Fold` is the merge step by step as the implementation performs it. With
 * `intended` false each rewrite is the implementation's as written
 * (`Rewritten`); with `intended` true it is the designed one
 * (`RewrittenIntended`). The batch's upserts live in a hash map, whose
 * iteration order decides where the new keys go: the merge takes that order
 * as a parameter `enum`, any function that lists each batch's new keys once.
 */
module Merge {
  import opened Wrappers
  import opened FieldPaths
  import opened Values
  import opened Compaction

  /** The changes gathered for the map at `parent`; `order` lists the upserted keys as they arrived. */
  datatype Batch = Batch(parent: FieldPath, inserts: map<string, Value>, order: seq<string>, deletes: set<string>)

  datatype MergeState = MergeState(tree: Value, batch: Batch)

  function EmptyBatch(parent: FieldPath): Batch {
    Batch(parent, map[], [], {})
  }

  function Init(tree: Value): MergeState {
    MergeState(tree, EmptyBatch([]))
  }

  /**
   * `enum` hands out the upserted keys of every batch once each, in some
   * order: the iteration order of the hash map that holds them.
   */
  ghost predicate IsEnumeration(enum: Batch -> seq<string>) {
    forall b: Batch :: Enumerates(b.order, b.inserts) ==> Enumerates(enum(b), b.inserts)
  }

  /** The enumeration that hands out the new keys in the order their paths appear in the mask. */
  function MaskOrder(b: Batch): seq<string> {
    b.order
  }

  lemma MaskOrderEnumerates()
    ensures IsEnumeration(MaskOrder)
  {
  }

  /** The rewrite of one map's entries by a batch. */
  function Rewrite(es: seq<Entry>, b: Batch, enum: Batch -> seq<string>, intended: bool): seq<Entry> {
    if intended then RewrittenIntended(es, b.inserts, enum(b), b.deletes)
    else Rewritten(es, b.inserts, enum(b), b.deletes)
  }

  /**
   * Applying a batch: the map at the batch's parent is found or created (a
   * missing entry or non-map value on the way becomes an empty map), and its
   * entries are rewritten.
   */
  function Flush(tree: Value, b: Batch, enum: Batch -> seq<string>, intended: bool): Value {
    Put(tree, b.parent, Map(Rewrite(EntriesOf(Descend(tree, b.parent)), b, enum, intended)))
  }

  /**
   * The batch after one more path of the mask: a path whose parent is not the
   * batch's parent starts a new batch; then the path's last segment is
   * upserted with `src`'s value, or deleted when `src` has none. An upsert
   * for a key the batch already holds is ignored, as an insertion into a hash
   * map that already has the key.
   */
  function NextBatch(b: Batch, path: FieldPath, src: Value): Batch
    requires path != []
  {
    var b1 := if IsImmediateParentOf(b.parent, path) then b else EmptyBatch(PopLast(path));
    var k := LastSegment(path);
    match GetPath(src, path)
    case Some(x) =>
      if k in b1.inserts then b1
      else b1.(inserts := b1.inserts[k := x], order := b1.order + [k])
    case None =>
      b1.(deletes := b1.deletes + {k})
  }

  /** One path of the mask: the batch is flushed first when the path leaves its parent map. */
  function Step(st: MergeState, path: FieldPath, src: Value, enum: Batch -> seq<string>, intended: bool): MergeState
    requires path != []
  {
    var tree := if IsImmediateParentOf(st.batch.parent, path) then st.tree else Flush(st.tree, st.batch, enum, intended);
    MergeState(tree, NextBatch(st.batch, path, src))
  }

  predicate NonEmptyPaths(mask: seq<FieldPath>) {
    forall i :: 0 <= i < |mask| ==> mask[i] != []
  }

  /** The value after the remaining paths `rest` and the final flush. */
  function Fold(st: MergeState, rest: seq<FieldPath>, src: Value, enum: Batch -> seq<string>, intended: bool): Value
    requires NonEmptyPaths(rest)
    decreases |rest|
  {
    if rest == [] then Flush(st.tree, st.batch, enum, intended)
    else Fold(Step(st, rest[0], src, enum, intended), rest[1..], src, enum, intended)
  }

  /** The merge of `mask` from `src` into `tree`, as the implementation writes it or as intended. */
  function Merged(tree: Value, mask: seq<FieldPath>, src: Value, enum: Batch -> seq<string>, intended: bool): Value
    requires NonEmptyPaths(mask)
  {
    Fold(Init(tree), mask, src, enum, intended)
  }

  // ---------------------------------------------------------------------
  // When the implementation's rewrite keeps keys unique

  /** The implementation's rewrite of the batch's map leaves its keys unique. */
  predicate FlushSafe(tree: Value, b: Batch, enum: Batch -> seq<string>) {
    KeysUnique(Rewrite(EntriesOf(Descend(tree, b.parent)), b, enum, false))
  }

  /** Every flush the implementation performs on the rest of the mask is safe. */
  predicate SafeFold(st: MergeState, rest: seq<FieldPath>, src: Value, enum: Batch -> seq<string>)
    requires NonEmptyPaths(rest)
    decreases |rest|
  {
    if rest == [] then FlushSafe(st.tree, st.batch, enum)
    else
      && (IsImmediateParentOf(st.batch.parent, rest[0]) || FlushSafe(st.tree, st.batch, enum))
      && SafeFold(Step(st, rest[0], src, enum, false), rest[1..], src, enum)
  }

  /** The batch's upserts carry well-formed values and `order` lists them once each. */
  predicate BatchValid(b: Batch) {
    && Enumerates(b.order, b.inserts)
    && (forall k :: k in b.inserts ==> WellFormed(b.inserts[k]))
  }

  predicate StateValid(st: MergeState) {
    st.tree.Map? && WellFormed(st.tree) && BatchValid(st.batch)
  }

  predicate ValuesWellFormed(es: seq<Entry>) {
    forall i :: 0 <= i < |es| ==> WellFormed(es[i].value)
  }

  lemma ValuesWellFormedConcat(a: seq<Entry>, b: seq<Entry>)
    requires ValuesWellFormed(a) && ValuesWellFormed(b)
    ensures ValuesWellFormed(a + b)
  {
    forall i | 0 <= i < |a + b| ensures WellFormed((a + b)[i].value) {
      if i < |a| { assert (a + b)[i] == a[i]; } else { assert (a + b)[i] == b[i - |a|]; }
    }
  }

  lemma {:induction false} PassWellFormed(es: seq<Entry>, n: nat, b: Batch)
    requires n <= |es| && ValuesWellFormed(es) && BatchValid(b)
    ensures ValuesWellFormed(Pass(es, n, b.inserts, b.deletes))
  {
    if n > 0 {
      PassWellFormed(es, n - 1, b);
      var r0 := Pass(es, n - 1, b.inserts, b.deletes);
      var e := es[n - 1];
      if e.key in b.inserts {
        ValuesWellFormedConcat(r0, [Entry(es[|r0|].key, b.inserts[e.key])]);
      } else if e.key !in b.deletes {
        ValuesWellFormedConcat(r0, [e]);
      }
    }
  }

  lemma {:induction false} SurvivorsWellFormed(es: seq<Entry>, b: Batch)
    requires ValuesWellFormed(es) && BatchValid(b)
    ensures ValuesWellFormed(Survivors(es, b.inserts, b.deletes))
    decreases |es|
  {
    if es != [] {
      var init, e := es[..|es| - 1], es[|es| - 1];
      SurvivorsWellFormed(init, b);
      var r0 := Survivors(init, b.inserts, b.deletes);
      if e.key in b.inserts {
        ValuesWellFormedConcat(r0, [Entry(e.key, b.inserts[e.key])]);
      } else if e.key !in b.deletes {
        ValuesWellFormedConcat(r0, [e]);
      }
    }
  }

  lemma {:induction false} AppendedWellFormed(order: seq<string>, b: Batch, present: set<string>)
    requires BatchValid(b)
    ensures ValuesWellFormed(Appended(order, b.inserts, present))
    decreases |order|
  {
    if order != [] {
      var init, k := order[..|order| - 1], order[|order| - 1];
      AppendedWellFormed(init, b, present);
      if k in b.inserts && k !in present {
        ValuesWellFormedConcat(Appended(init, b.inserts, present), [Entry(k, b.inserts[k])]);
      }
    }
  }

  /** A flush whose rewrite keeps keys unique keeps the whole tree well formed. */
  lemma FlushWellFormed(tree: Value, b: Batch, enum: Batch -> seq<string>, intended: bool)
    requires tree.Map? && WellFormed(tree) && BatchValid(b)
    requires KeysUnique(Rewrite(EntriesOf(Descend(tree, b.parent)), b, enum, intended))
    ensures Flush(tree, b, enum, intended).Map?
    ensures WellFormed(Flush(tree, b, enum, intended))
  {
    var es := EntriesOf(Descend(tree, b.parent));
    var order := enum(b);
    DescendWellFormed(tree, b.parent);
    assert ValuesWellFormed(es);
    PassWellFormed(es, |es|, b);
    SurvivorsWellFormed(es, b);
    AppendedWellFormed(order, b, KeySet(es));
    ValuesWellFormedConcat(Pass(es, |es|, b.inserts, b.deletes), Appended(order, b.inserts, KeySet(es)));
    ValuesWellFormedConcat(Survivors(es, b.inserts, b.deletes), Appended(order, b.inserts, KeySet(es)));
    PutWellFormed(tree, b.parent, Map(Rewrite(es, b, enum, intended)));
    if b.parent != [] {
      assert Flush(tree, b, enum, intended) ==
        Map(Upsert(EntriesOf(tree), b.parent[0], Put(Child(tree, b.parent[0]), b.parent[1..], Map(Rewrite(es, b, enum, intended)))));
    }
  }

  /** A step keeps the tree well formed and the batch valid when the flush it may perform is safe. */
  lemma StepValid(st: MergeState, path: FieldPath, src: Value, enum: Batch -> seq<string>, intended: bool)
    requires path != [] && StateValid(st) && WellFormed(src)
    requires IsImmediateParentOf(st.batch.parent, path) ||
             KeysUnique(Rewrite(EntriesOf(Descend(st.tree, st.batch.parent)), st.batch, enum, intended))
    ensures StateValid(Step(st, path, src, enum, intended))
  {
    if !IsImmediateParentOf(st.batch.parent, path) {
      FlushWellFormed(st.tree, st.batch, enum, intended);
    }
    var b := if IsImmediateParentOf(st.batch.parent, path) then st.batch else EmptyBatch(PopLast(path));
    var k := LastSegment(path);
    match GetPath(src, path)
    case Some(x) =>
      if k !in b.inserts {
        GetPathWellFormed(src, path);
        var order' := b.order + [k];
        assert Distinct(order') by {
          forall i, j | 0 <= i < j < |order'| ensures order'[i] != order'[j] {
            if j == |b.order| {
              assert order'[i] == b.order[i] && b.order[i] in b.order;
            } else {
              assert order'[i] == b.order[i] && order'[j] == b.order[j];
            }
          }
        }
      }
    case None =>
  }

  /** The designed rewrite never puts a key twice into a map, whatever the enumeration. */
  lemma IntendedFlushSafe(tree: Value, b: Batch, enum: Batch -> seq<string>)
    requires WellFormed(tree) && BatchValid(b) && IsEnumeration(enum)
    ensures KeysUnique(Rewrite(EntriesOf(Descend(tree, b.parent)), b, enum, true))
  {
    var es := EntriesOf(Descend(tree, b.parent));
    DescendWellFormed(tree, b.parent);
    assert KeysUnique(es);
    RewriteLookup(es, b.inserts, enum(b), b.deletes, "");
  }

  /** With nothing upserted, no order appends anything. */
  lemma {:induction false} AppendedNothing(order: seq<string>, present: set<string>)
    ensures Appended(order, map[], present) == []
    decreases |order|
  {
    if order != [] {
      AppendedNothing(order[..|order| - 1], present);
    }
  }

  /** After a designed merge from a valid state, the tree is a well-formed map. */
  lemma {:induction false} FoldWellFormed(st: MergeState, rest: seq<FieldPath>, src: Value, enum: Batch -> seq<string>)
    requires NonEmptyPaths(rest) && StateValid(st) && WellFormed(src) && IsEnumeration(enum)
    ensures Fold(st, rest, src, enum, true).Map?
    ensures WellFormed(Fold(st, rest, src, enum, true))
    decreases |rest|
  {
    IntendedFlushSafe(st.tree, st.batch, enum);
    if rest == [] {
      FlushWellFormed(st.tree, st.batch, enum, true);
    } else {
      StepValid(st, rest[0], src, enum, true);
      assert NonEmptyPaths(rest[1..]);
      FoldWellFormed(Step(st, rest[0], src, enum, true), rest[1..], src, enum);
    }
  }

  // ---------------------------------------------------------------------
  // The merge as a sequence of single-path writes and deletes

  /** Removes the last segment of `p` from the map at its parent, found or created first. */
  function Cleared(t: Value, p: FieldPath): Value
    requires p != []
  {
    var parent := PopLast(p);
    Put(t, parent, Map(RemoveKey(EntriesOf(Descend(t, parent)), LastSegment(p))))
  }

  /** One path of a mask on its own: written with `src`'s value there, or cleared when `src` has none. */
  function SetOrClear(t: Value, p: FieldPath, src: Value): Value
    requires p != []
  {
    match GetPath(src, p)
    case Some(x) => Put(t, p, x)
    case None => Cleared(t, p)
  }

  /** The paths of `rest` applied one after the other. */
  function Sequential(t: Value, rest: seq<FieldPath>, src: Value): Value
    requires NonEmptyPaths(rest)
    decreases |rest|
  {
    if rest == [] then t else Sequential(SetOrClear(t, rest[0], src), rest[1..], src)
  }

  /** No path still to come in the batch's map names a key the batch already holds. */
  predicate BatchFresh(b: Batch, rest: seq<FieldPath>) {
    forall i :: 0 <= i < |rest| && rest[i] != [] && PopLast(rest[i]) == b.parent ==>
      LastSegment(rest[i]) !in b.inserts && LastSegment(rest[i]) !in b.deletes
  }

  /** Flushing a batch with nothing in it only creates the map at its parent. */
  lemma FlushEmpty(t: Value, parent: FieldPath, enum: Batch -> seq<string>, intended: bool)
    requires t.Map? || parent != []
    ensures Flush(t, EmptyBatch(parent), enum, intended) == Put(t, parent, Descend(t, parent))
    ensures parent == [] ==> Flush(t, EmptyBatch(parent), enum, intended) == t
  {
    var es := EntriesOf(Descend(t, parent));
    AppendedNothing(enum(EmptyBatch(parent)), KeySet(es));
    RewriteNothing(es);
    DescendIsMap(t, parent);
    DescendRoot(t);
  }

  /** Upserting one more fresh key in a batch is writing that key after the batch's flush. */
  lemma FlushInsert(t: Value, b: Batch, k: string, x: Value)
    requires WellFormed(t) && BatchValid(b) && k !in b.inserts && k !in b.deletes
    ensures Flush(t, b.(inserts := b.inserts[k := x], order := b.order + [k]), MaskOrder, true) ==
            Put(Flush(t, b, MaskOrder, true), b.parent + [k], x)
  {
    var p := b.parent;
    var es := EntriesOf(Descend(t, p));
    var m := Map(Rewrite(es, b, MaskOrder, true));
    DescendWellFormed(t, p);
    assert KeysUnique(es);
    RewriteInsertOne(es, b.inserts, b.order, b.deletes, k, x);
    PutAppend(Put(t, p, m), p, k, x);
    DescendPut(t, p, m);
    PutPut(t, p, m, Put(m, [k], x));
    assert Put(m, [k], x) == Map(Upsert(m.entries, k, x));
  }

  /** Deleting one more key, not upserted, in a batch is clearing that key after the batch's flush. */
  lemma FlushDelete(t: Value, b: Batch, k: string)
    requires BatchValid(b) && k !in b.inserts
    ensures Flush(t, b.(deletes := b.deletes + {k}), MaskOrder, true) == Cleared(Flush(t, b, MaskOrder, true), b.parent + [k])
  {
    var p := b.parent;
    var es := EntriesOf(Descend(t, p));
    var m := Map(Rewrite(es, b, MaskOrder, true));
    RewriteDeleteOne(es, b.inserts, b.order, b.deletes, k);
    assert PopLast(p + [k]) == p && LastSegment(p + [k]) == k;
    DescendPut(t, p, m);
    PutPut(t, p, m, Map(RemoveKey(m.entries, k)));
  }

  /** Creating the parent map first does not change what writing or clearing a path does. */
  lemma MaterializeFirst(t: Value, p: FieldPath, src: Value)
    requires p != [] && (t.Map? || PopLast(p) != [])
    ensures SetOrClear(Put(t, PopLast(p), Descend(t, PopLast(p))), p, src) == SetOrClear(t, p, src)
  {
    var parent, k := PopLast(p), LastSegment(p);
    var d := Descend(t, parent);
    var t1 := Put(t, parent, d);
    SplitLast(p);
    DescendIsMap(t, parent);
    DescendPut(t, parent, d);
    match GetPath(src, p)
    case Some(x) =>
      PutAppend(t1, parent, k, x);
      PutAppend(t, parent, k, x);
      PutPut(t, parent, d, Put(d, [k], x));
    case None =>
      PutPut(t, parent, d, Map(RemoveKey(EntriesOf(d), k)));
  }

  /** One path of the mask, flushed, is the flush of the batch before it followed by that path alone. */
  lemma StepFlush(st: MergeState, p: FieldPath, src: Value)
    requires p != [] && StateValid(st) && WellFormed(src)
    requires IsImmediateParentOf(st.batch.parent, p) ==>
      LastSegment(p) !in st.batch.inserts && LastSegment(p) !in st.batch.deletes
    ensures var st' := Step(st, p, src, MaskOrder, true);
      Flush(st'.tree, st'.batch, MaskOrder, true) == SetOrClear(Flush(st.tree, st.batch, MaskOrder, true), p, src)
  {
    var parent, k := PopLast(p), LastSegment(p);
    var b := st.batch;
    SplitLast(p);
    var t0 := Flush(st.tree, b, MaskOrder, true);
    if IsImmediateParentOf(b.parent, p) {
      ImmediateParentIsPopLast(b.parent, p);
      match GetPath(src, p)
      case Some(x) =>
        FlushInsert(st.tree, b, k, x);
      case None =>
        FlushDelete(st.tree, b, k);
    } else {
      MaskOrderEnumerates();
      FlushWellFormed(st.tree, b, MaskOrder, true) by { IntendedFlushSafe(st.tree, b, MaskOrder); }
      FlushEmpty(t0, parent, MaskOrder, true);
      MaterializeFirst(t0, p, src);
      var e := EmptyBatch(parent);
      match GetPath(src, p)
      case Some(x) =>
        FlushInsert(t0, e, k, x);
      case None =>
        FlushDelete(t0, e, k);
    }
  }

  /** After one path the batch is still fresh for the distinct paths that follow. */
  lemma StepFresh(st: MergeState, rest: seq<FieldPath>, src: Value)
    requires NonEmptyPaths(rest) && rest != [] && Distinct(rest) && BatchFresh(st.batch, rest)
    ensures BatchFresh(Step(st, rest[0], src, MaskOrder, true).batch, rest[1..])
  {
    var p := rest[0];
    var st' := Step(st, p, src, MaskOrder, true);
    var rest' := rest[1..];
    SplitLast(p);
    forall i | 0 <= i < |rest'| && rest'[i] != [] && PopLast(rest'[i]) == st'.batch.parent
      ensures LastSegment(rest'[i]) !in st'.batch.inserts && LastSegment(rest'[i]) !in st'.batch.deletes
    {
      assert rest'[i] == rest[i + 1] && rest[i + 1] != p;
      SplitLast(rest'[i]);
    }
  }

  /**
   * The designed merge from any state, with new keys in mask order, is the
   * flush of the current batch followed by the remaining paths one by one,
   * provided the paths are distinct and none repeats a key of the current
   * batch.
   */
  lemma {:induction false} FoldSequential(st: MergeState, rest: seq<FieldPath>, src: Value)
    requires NonEmptyPaths(rest) && Distinct(rest) && StateValid(st) && WellFormed(src)
    requires BatchFresh(st.batch, rest)
    ensures Fold(st, rest, src, MaskOrder, true) == Sequential(Flush(st.tree, st.batch, MaskOrder, true), rest, src)
    decreases |rest|
  {
    if rest != [] {
      var p := rest[0];
      var rest' := rest[1..];
      var st' := Step(st, p, src, MaskOrder, true);
      MaskOrderEnumerates();
      IntendedFlushSafe(st.tree, st.batch, MaskOrder);
      StepValid(st, p, src, MaskOrder, true);
      assert NonEmptyPaths(rest');
      assert Distinct(rest');
      StepFresh(st, rest, src);
      FoldSequential(st', rest', src);
      StepFlush(st, p, src);
    }
  }

  /**
   * The designed merge of a field mask, with new keys appended in mask order,
   * is the sequence of its paths applied one at a time, in mask order: each
   * path is written with `src`'s value or cleared from its parent map.
   */
  lemma MergeIsSequential(t: Value, mask: seq<FieldPath>, src: Value)
    requires t.Map? && WellFormed(t) && WellFormed(src) && IsFieldMask(mask)
    ensures Merged(t, mask, src, MaskOrder, true) == Sequential(t, mask, src)
  {
    FieldMaskDistinct(mask);
    FoldSequential(Init(t), mask, src);
    MaskOrderEnumerates();
    FlushEmpty(t, [], MaskOrder, true);
  }

  // ---------------------------------------------------------------------
  // Any enumeration of the new keys gives the same data

  /** The designed rewrite of maps holding the same data, under two enumerations, gives maps holding the same data. */
  lemma RewriteEquiv(es1: seq<Entry>, es2: seq<Entry>, b: Batch, e1: Batch -> seq<string>, e2: Batch -> seq<string>)
    requires KeysUnique(es1) && KeysUnique(es2) && Equiv(Map(es1), Map(es2)) && BatchValid(b)
    requires IsEnumeration(e1) && IsEnumeration(e2)
    ensures Equiv(Map(Rewrite(es1, b, e1, true)), Map(Rewrite(es2, b, e2, true)))
  {
    var r1, r2 := Rewrite(es1, b, e1, true), Rewrite(es2, b, e2, true);
    forall k ensures Lookup(r1, k).Some? <==> Lookup(r2, k).Some?
      ensures Lookup(r1, k).Some? ==> Equiv(Lookup(r1, k).value, Lookup(r2, k).value)
    {
      RewriteLookup(es1, b.inserts, e1(b), b.deletes, k);
      RewriteLookup(es2, b.inserts, e2(b), b.deletes, k);
      EquivLookup(es1, es2, k);
      if k in b.inserts {
        EquivRefl(b.inserts[k]);
      }
    }
    RewriteLookup(es1, b.inserts, e1(b), b.deletes, "");
    EquivByLookup(r1, r2);
  }

  /** Flushing one batch into trees holding the same data, under two enumerations, gives trees holding the same data. */
  lemma FlushEquiv(t1: Value, t2: Value, b: Batch, e1: Batch -> seq<string>, e2: Batch -> seq<string>)
    requires WellFormed(t1) && WellFormed(t2) && Equiv(t1, t2) && BatchValid(b)
    requires IsEnumeration(e1) && IsEnumeration(e2)
    ensures Equiv(Flush(t1, b, e1, true), Flush(t2, b, e2, true))
  {
    var d1, d2 := Descend(t1, b.parent), Descend(t2, b.parent);
    EquivDescend(t1, t2, b.parent);
    DescendWellFormed(t1, b.parent);
    DescendWellFormed(t2, b.parent);
    EquivEntries(d1, d2);
    RewriteEquiv(EntriesOf(d1), EntriesOf(d2), b, e1, e2);
    EquivPut(t1, t2, b.parent, Map(Rewrite(EntriesOf(d1), b, e1, true)), Map(Rewrite(EntriesOf(d2), b, e2, true)));
  }

  /**
   * One path of the mask keeps two designed merges that differ only in the
   * enumeration on the same batch and on trees holding the same data.
   */
  lemma StepEquiv(st1: MergeState, st2: MergeState, p: FieldPath, src: Value,
                  e1: Batch -> seq<string>, e2: Batch -> seq<string>)
    requires p != [] && StateValid(st1) && StateValid(st2) && WellFormed(src)
    requires st1.batch == st2.batch && Equiv(st1.tree, st2.tree)
    requires IsEnumeration(e1) && IsEnumeration(e2)
    ensures StateValid(Step(st1, p, src, e1, true)) && StateValid(Step(st2, p, src, e2, true))
    ensures Step(st1, p, src, e1, true).batch == Step(st2, p, src, e2, true).batch
    ensures Equiv(Step(st1, p, src, e1, true).tree, Step(st2, p, src, e2, true).tree)
  {
    IntendedFlushSafe(st1.tree, st1.batch, e1);
    StepValid(st1, p, src, e1, true);
    IntendedFlushSafe(st2.tree, st2.batch, e2);
    StepValid(st2, p, src, e2, true);
    if !IsImmediateParentOf(st1.batch.parent, p) {
      FlushEquiv(st1.tree, st2.tree, st1.batch, e1, e2);
    }
  }

  /**
   * Two designed merges that differ only in the enumeration of new keys, and
   * start from the same data, end with the same data.
   */
  lemma {:induction false} FoldEquiv(st1: MergeState, st2: MergeState, rest: seq<FieldPath>, src: Value,
                                     e1: Batch -> seq<string>, e2: Batch -> seq<string>)
    requires NonEmptyPaths(rest) && StateValid(st1) && StateValid(st2) && WellFormed(src)
    requires st1.batch == st2.batch && Equiv(st1.tree, st2.tree)
    requires IsEnumeration(e1) && IsEnumeration(e2)
    ensures Equiv(Fold(st1, rest, src, e1, true), Fold(st2, rest, src, e2, true))
    decreases |rest|
  {
    if rest == [] {
      FlushEquiv(st1.tree, st2.tree, st1.batch, e1, e2);
    } else {
      var p := rest[0];
      StepEquiv(st1, st2, p, src, e1, e2);
      assert NonEmptyPaths(rest[1..]);
      FoldEquiv(Step(st1, p, src, e1, true), Step(st2, p, src, e2, true), rest[1..], src, e1, e2);
    }
  }

  /**
   * Whatever order the hash map hands out the new keys in, the designed merge
   * of a field mask holds the same data as applying its paths one at a time:
   * the same keys in every map, a walk finds something in one exactly when it
   * does in the other, and finds the same leaf.
   */
  lemma MergeAnyOrder(t: Value, mask: seq<FieldPath>, src: Value, enum: Batch -> seq<string>)
    requires t.Map? && WellFormed(t) && WellFormed(src) && IsFieldMask(mask) && IsEnumeration(enum)
    ensures Equiv(Merged(t, mask, src, enum, true), Sequential(t, mask, src))
    ensures forall q :: GetPath(Merged(t, mask, src, enum, true), q).Some? <==> GetPath(Sequential(t, mask, src), q).Some?
    ensures forall q ::
      GetPath(Merged(t, mask, src, enum, true), q).Some? && GetPath(Merged(t, mask, src, enum, true), q).value.Leaf? ==>
        GetPath(Sequential(t, mask, src), q) == GetPath(Merged(t, mask, src, enum, true), q)
  {
    var m := Merged(t, mask, src, enum, true);
    EquivRefl(t);
    MaskOrderEnumerates();
    FoldEquiv(Init(t), Init(t), mask, src, enum, MaskOrder);
    MergeIsSequential(t, mask, src);
    FoldWellFormed(Init(t), mask, src, enum);
    forall q ensures GetPath(m, q).Some? <==> GetPath(Sequential(t, mask, src), q).Some?
      ensures GetPath(m, q).Some? && GetPath(m, q).value.Leaf? ==> GetPath(Sequential(t, mask, src), q) == GetPath(m, q)
    {
      EquivGetPath(m, Sequential(t, mask, src), q);
    }
  }

  // ---------------------------------------------------------------------
  // When the implementation's merge is the designed one

  /** Paths of the mask with the same parent are either all present in `src` or all absent. */
  predicate Homogeneous(mask: seq<FieldPath>, src: Value) {
    forall i, j ::
      (0 <= i < |mask| && 0 <= j < |mask| && mask[i] != [] && mask[j] != [] &&
       PopLast(mask[i]) == PopLast(mask[j])) ==>
        (GetPath(src, mask[i]).Some? <==> GetPath(src, mask[j]).Some?)
  }

  /** A batch that only upserts or only deletes. */
  predicate Pure(b: Batch) {
    b.inserts == map[] || b.deletes == {}
  }

  /** The current batch agrees, on upsert or delete, with every later path in its map. */
  predicate Agrees(b: Batch, rest: seq<FieldPath>, src: Value) {
    forall i :: 0 <= i < |rest| && rest[i] != [] && PopLast(rest[i]) == b.parent ==>
      (GetPath(src, rest[i]).Some? ==> b.deletes == {}) &&
      (GetPath(src, rest[i]).None? ==> b.inserts == map[])
  }

  /** A batch that only upserts or only deletes never drops an entry before a replaced one. */
  lemma PureNoHazard(es: seq<Entry>, b: Batch)
    requires Pure(b)
    ensures NoDropBeforeReplace(es, b.inserts, b.deletes)
  {
  }

  /** After one path, the rest of a homogeneous mask is homogeneous and agrees with the new batch. */
  lemma StepAgrees(st: MergeState, rest: seq<FieldPath>, src: Value, enum: Batch -> seq<string>)
    requires NonEmptyPaths(rest) && rest != [] && Homogeneous(rest, src)
    requires Pure(st.batch) && Agrees(st.batch, rest, src)
    ensures Homogeneous(rest[1..], src)
    ensures Pure(Step(st, rest[0], src, enum, false).batch)
    ensures Agrees(Step(st, rest[0], src, enum, false).batch, rest[1..], src)
  {
    var rest' := rest[1..];
    var b' := Step(st, rest[0], src, enum, false).batch;
    forall i, j | 0 <= i < |rest'| && 0 <= j < |rest'| && rest'[i] != [] && rest'[j] != [] &&
        PopLast(rest'[i]) == PopLast(rest'[j])
      ensures GetPath(src, rest'[i]).Some? <==> GetPath(src, rest'[j]).Some?
    {
      assert rest'[i] == rest[i + 1] && rest'[j] == rest[j + 1];
    }
    forall i | 0 <= i < |rest'| && rest'[i] != [] && PopLast(rest'[i]) == b'.parent
      ensures (GetPath(src, rest'[i]).Some? ==> b'.deletes == {}) &&
              (GetPath(src, rest'[i]).None? ==> b'.inserts == map[])
    {
      assert rest'[i] == rest[i + 1];
      assert PopLast(rest[i + 1]) == PopLast(rest[0]);
    }
  }

  lemma {:induction false} HomogeneousFold(st: MergeState, rest: seq<FieldPath>, src: Value, enum: Batch -> seq<string>)
    requires NonEmptyPaths(rest) && Homogeneous(rest, src) && StateValid(st) && WellFormed(src)
    requires Pure(st.batch) && Agrees(st.batch, rest, src) && IsEnumeration(enum)
    ensures SafeFold(st, rest, src, enum)
    ensures Fold(st, rest, src, enum, false) == Fold(st, rest, src, enum, true)
    decreases |rest|
  {
    var b := st.batch;
    var es := EntriesOf(Descend(st.tree, b.parent));
    DescendWellFormed(st.tree, b.parent);
    PureNoHazard(es, b);
    RewrittenIsIntended(es, b.inserts, enum(b), b.deletes);
    IntendedFlushSafe(st.tree, b, enum);
    if rest != [] {
      var st' := Step(st, rest[0], src, enum, false);
      StepValid(st, rest[0], src, enum, false);
      assert st' == Step(st, rest[0], src, enum, true);
      assert NonEmptyPaths(rest[1..]);
      StepAgrees(st, rest, src, enum);
      HomogeneousFold(st', rest[1..], src, enum);
    }
  }

  /**
   * When the paths of every parent map agree on presence in `src`, the
   * implementation's merge keeps every map's keys unique and equals the
   * designed merge, whatever the enumeration of new keys. It therefore holds
   * the same data as the one-path-at-a-time merge, and equals it exactly when
   * new keys are appended in mask order.
   */
  lemma HomogeneousMerge(t: Value, mask: seq<FieldPath>, src: Value, enum: Batch -> seq<string>)
    requires t.Map? && WellFormed(t) && WellFormed(src) && IsFieldMask(mask) && Homogeneous(mask, src)
    requires IsEnumeration(enum)
    ensures SafeFold(Init(t), mask, src, enum)
    ensures Merged(t, mask, src, enum, false) == Merged(t, mask, src, enum, true)
    ensures Equiv(Merged(t, mask, src, enum, false), Sequential(t, mask, src))
    ensures Merged(t, mask, src, MaskOrder, false) == Sequential(t, mask, src)
  {
    HomogeneousFold(Init(t), mask, src, enum);
    MergeAnyOrder(t, mask, src, enum);
    MaskOrderEnumerates();
    HomogeneousFold(Init(t), mask, src, MaskOrder);
    MergeIsSequential(t, mask, src);
  }

  // ---------------------------------------------------------------------
  // Consequences and witnesses

  /** An empty mask leaves a map as it is. */
  lemma MergedEmptyMask(t: Value, src: Value, enum: Batch -> seq<string>, intended: bool)
    requires t.Map?
    ensures Merged(t, [], src, enum, intended) == t
  {
    FlushEmpty(t, [], enum, intended);
  }

  /**
   * Merging the mask [a, b] from a document that has only b = 3 into
   * {a: 1, b: 2}: the implementation's merge keeps key "a" with b's new value;
   * the designed one removes "a" and writes b.
   */
  lemma SetAllMovesValue()
    ensures var t := Map([Entry("a", Leaf(1)), Entry("b", Leaf(2))]);
      var src := Map([Entry("b", Leaf(3))]);
      var mask: seq<FieldPath> := [["a"], ["b"]];
      && SafeFold(Init(t), mask, src, MaskOrder)
      && Merged(t, mask, src, MaskOrder, false) == Map([Entry("a", Leaf(3))])
      && Merged(t, mask, src, MaskOrder, true) == Map([Entry("b", Leaf(3))])
  {
    var t := Map([Entry("a", Leaf(1)), Entry("b", Leaf(2))]);
    var src := Map([Entry("b", Leaf(3))]);
    var mask: seq<FieldPath> := [["a"], ["b"]];
    assert IsImmediateParentOf([], ["a"]) && IsImmediateParentOf([], ["b"]);
    assert LastSegment(["a"]) == "a" && LastSegment(["b"]) == "b";
    assert GetPath(src, ["a"]) == None;
    assert GetPath(src, ["b"]) == Some(Leaf(3));
    var b := Batch([], map["b" := Leaf(3)], ["b"], {"a"});
    var st1 := Step(Init(t), ["a"], src, MaskOrder, false);
    assert st1 == MergeState(t, Batch([], map[], [], {"a"}));
    assert Step(st1, ["b"], src, MaskOrder, false) == MergeState(t, b);
    assert Step(Step(Init(t), ["a"], src, MaskOrder, true), ["b"], src, MaskOrder, true) == MergeState(t, b);
    assert mask[1..][1..] == [];
    ReplaceAfterDropMovesValue();
    assert Descend(t, []) == t;
    assert MaskOrder(b) == ["b"];
    assert Flush(t, b, MaskOrder, false) == Map([Entry("a", Leaf(3))]);
    assert Flush(t, b, MaskOrder, true) == Map([Entry("b", Leaf(3))]);
  }

  /**
   * A batch of deletes creates its parent map when it is missing: clearing
   * x.y in an empty document leaves {x: {}}, where removing the missing
   * field would leave the document empty.
   */
  lemma DeleteOnlyBatchCreatesParent(enum: Batch -> seq<string>)
    ensures Merged(Map([]), [["x", "y"]], Map([]), enum, false) == Map([Entry("x", Map([]))])
    ensures Merged(Map([]), [["x", "y"]], Map([]), enum, true) == Map([Entry("x", Map([]))])
  {
    var p: FieldPath := ["x", "y"];
    assert PopLast(p) == ["x"] && LastSegment(p) == "y";
    assert !IsImmediateParentOf([], p);
    assert GetPath(Map([]), p) == None;
    var b := Batch(["x"], map[], [], {"y"});
    FlushEmpty(Map([]), [], enum, false);
    FlushEmpty(Map([]), [], enum, true);
    AppendedNothing(enum(b), KeySet([]));
    assert Step(Init(Map([])), p, Map([]), enum, false) == MergeState(Map([]), b);
    assert Step(Init(Map([])), p, Map([]), enum, true) == MergeState(Map([]), b);
    assert Descend(Map([]), ["x"]) == Map([]);
    assert Rewrite([], b, enum, false) == [] && Rewrite([], b, enum, true) == [];
    assert Put(Map([]), ["x"], Map([])) == Map([Entry("x", Map([]))]);
  }
}
