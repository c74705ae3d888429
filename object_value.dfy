/**
 * A mutable document value: a map at the root, read by path, written by
 * path, pruned by path and merged from another document by field mask.
 *
 * The implementation updates nested maps in place through pointers into the
 * tree; the model holds the tree as one `Value` and writes a changed nested
 * map back at its path with `Put`.
 */
module ObjectValue {
  import opened Wrappers
  import opened FieldPaths
  import opened Values
  import opened Compaction
  import opened FieldMasks
  import opened Merge

  /**
   * The value after deleting `p`: when the parent of `p` is a map, its entry
   * for the last segment is removed; otherwise nothing changes.
   */
  function Removed(v: Value, p: FieldPath): Value
    requires p != []
  {
    match GetPath(v, PopLast(p))
    case Some(Map(es)) => Put(v, PopLast(p), Map(RemoveKey(es, LastSegment(p))))
    case _ => v
  }

  class MutableObjectValue {
    var value: Value

    /** The root is a map and no map in the tree holds a key twice. */
    ghost predicate Valid()
      reads this
    {
      value.Map? && WellFormed(value)
    }

    /** A new object is the empty map. */
    constructor()
      ensures Valid() && value == Map([])
    {
      value := Map([]);
    }

    /**
     * The mask of this object: every path to a leaf or to an empty map, and
     * nothing else.
     */
    method ToFieldMask() returns (mask: set<FieldPath>)
      requires Valid()
      ensures mask == MaskOf(value)
      ensures forall p :: p in mask <==> p != [] && IsMaskLeaf(value, p)
    {
      mask := ExtractFieldMask(value);
      forall p
        ensures p in mask <==> p != [] && IsMaskLeaf(value, p)
      {
        MaskIsLeaves(value, p);
      }
    }

    /**
     * The mask of the map `m`, entry by entry: a non-map value contributes
     * its key, a non-empty map its nested paths under its key, and an empty
     * map its key alone.
     */
    method ExtractFieldMask(m: Value) returns (fields: set<FieldPath>)
      requires m.Map?
      ensures fields == MaskOf(m)
      decreases m
    {
      fields := {};
      var i := 0;
      while i < |m.entries|
        invariant i <= |m.entries|
        invariant fields == MaskUpTo(m, i)
      {
        var current := [m.entries[i].key];
        var x := m.entries[i].value;
        if x.Map? {
          var nested := ExtractFieldMask(x);
          if nested == {} {
            // An empty map is kept as a path of its own.
            fields := fields + {current};
          } else {
            fields := fields + set q | q in nested :: current + q;
          }
        } else {
          fields := fields + {current};
        }
        i := i + 1;
      }
    }

    /** The value at `path`, if every step finds an entry; the whole object for the empty path. */
    method Get(path: FieldPath) returns (r: Option<Value>)
      ensures r == GetPath(value, path)
    {
      if path == [] {
        return Some(value);
      }
      var nested := value;
      var i := 0;
      while i < |path|
        invariant i <= |path|
        invariant GetPath(value, path[..i]) == Some(nested)
      {
        var entry := FindEntry(nested, path[i]);
        WalkStep(value, path, i, nested);
        if entry.None? {
          return None;
        }
        nested := nested.entries[entry.value].value;
        i := i + 1;
      }
      assert path[..|path|] == path;
      return Some(nested);
    }

    /**
     * Writes `x` at `path`: the parent map is found or created, then the last
     * segment is upserted in it.
     */
    method Set(path: FieldPath, x: Value)
      requires Valid() && path != [] && WellFormed(x)
      modifies this
      ensures Valid()
      ensures value == Put(old(value), path, x)
    {
      var parent := PopLast(path);
      var last := LastSegment(path);
      var node := ParentMap(parent);
      DescendWellFormed(old(value), parent);
      var entries := ApplyChanges(node.entries, map[last := x], [last], {});
      RewriteUpsert(node.entries, last, x);
      value := Put(value, parent, Map(entries));
      PutPut(old(value), parent, node, Map(entries));
      SplitLast(path);
      PutAppend(old(value), parent, last, x);
      assert Put(node, [last], x) == Map(Upsert(node.entries, last, x));
      PutWellFormed(old(value), path, x);
    }

    /**
     * Merges `data` into this object along `mask`: each path of the mask takes
     * the value `data` holds there, or is deleted when `data` has none.
     * Consecutive paths with the same parent are applied in one rewrite of
     * that parent, which is found or created first. `enum` is the order in
     * which the hash map of each batch's upserts hands out its keys.
     */
    method SetAll(mask: seq<FieldPath>, data: MutableObjectValue, enum: Batch -> seq<string>)
      requires Valid() && data.Valid() && data != this && IsFieldMask(mask) && IsEnumeration(enum)
      requires SafeFold(Init(value), mask, data.value, enum)
      modifies this
      ensures Valid()
      ensures value == Merged(old(value), mask, data.value, enum, false)
    {
      var batch := EmptyBatch([]);
      var i := 0;
      assert mask[i..] == mask;
      while i < |mask|
        invariant i <= |mask| && Valid() && BatchValid(batch)
        invariant SafeFold(MergeState(value, batch), mask[i..], data.value, enum)
        invariant Fold(MergeState(value, batch), mask[i..], data.value, enum, false)
               == Merged(old(value), mask, data.value, enum, false)
      {
        assert mask[i..][0] == mask[i] && mask[i..][1..] == mask[i + 1..];
        batch := AddPath(batch, mask[i], data, enum);
        i := i + 1;
      }
      ApplyAt(batch, enum);
    }

    /**
     * One path of `SetAll`: a path outside the batch's parent map first
     * flushes the batch and starts a new one at the path's parent; then the
     * last segment is upserted with the value `data` holds at the path, unless
     * the batch already upserts it, or deleted when `data` has none.
     */
    method AddPath(batch: Batch, path: FieldPath, data: MutableObjectValue, enum: Batch -> seq<string>)
      returns (next: Batch)
      requires Valid() && data.Valid() && data != this && path != [] && BatchValid(batch) && IsEnumeration(enum)
      requires IsImmediateParentOf(batch.parent, path) || FlushSafe(value, batch, enum)
      modifies this
      ensures Valid() && BatchValid(next)
      ensures MergeState(value, next) == Step(MergeState(old(value), batch), path, data.value, enum, false)
    {
      StepValid(MergeState(value, batch), path, data.value, enum, false);
      next := batch;
      if !IsImmediateParentOf(batch.parent, path) {
        ApplyAt(batch, enum);
        next := EmptyBatch(PopLast(path));
      }
      var x := data.Get(path);
      var last := LastSegment(path);
      if x.Some? {
        if last !in next.inserts {
          next := next.(inserts := next.inserts[last := x.value], order := next.order + [last]);
        }
      } else {
        next := next.(deletes := next.deletes + {last});
      }
    }

    /**
     * One flush of `SetAll`: the batch is applied to the map at its parent,
     * found or created first, with the new keys appended in the order `enum`
     * hands them out.
     */
    method ApplyAt(b: Batch, enum: Batch -> seq<string>)
      requires Valid() && BatchValid(b) && IsEnumeration(enum)
      requires FlushSafe(value, b, enum)
      modifies this
      ensures Valid()
      ensures value == Flush(old(value), b, enum, false)
    {
      var node := ParentMap(b.parent);
      DescendWellFormed(old(value), b.parent);
      var entries := ApplyChanges(node.entries, b.inserts, enum(b), b.deletes);
      value := Put(value, b.parent, Map(entries));
      PutPut(old(value), b.parent, node, Map(entries));
      FlushWellFormed(old(value), b, enum, false);
    }

    /**
     * Walks `path` from the root and returns the map at its end: an existing
     * map is entered, a non-map value is replaced by an empty map in its slot,
     * and a missing key is added as a new last entry holding an empty map.
     */
    method ParentMap(path: FieldPath) returns (node: Value)
      requires Valid()
      modifies this
      ensures Valid()
      ensures node == Descend(old(value), path) && node.Map?
      ensures value == Put(old(value), path, node)
    {
      ghost var v0 := value;
      node := value;
      var i := 0;
      var prefix: FieldPath := [];
      while i < |path|
        invariant i <= |path| && prefix == path[..i] && Valid()
        invariant node == Descend(v0, prefix) && node.Map? && WellFormed(node)
        invariant value == Put(v0, prefix, node)
      {
        var segment := path[i];
        PutPut(v0, prefix, node, node);
        ghost var before := value;
        var child := EnterChild(prefix, node, segment);
        WalkDeeper(v0, prefix, segment, node, child, before, value);
        TakeOneMore(path, i);
        node := child;
        prefix := prefix + [segment];
        i := i + 1;
      }
      assert path[..|path|] == path;
    }

    /**
     * One step of the walk, below the map `node` held at `prefix`: an
     * existing map for `segment` is entered, a non-map value is replaced by
     * an empty map in its slot, and a missing key gets an empty map as a new
     * last entry.
     */
    method EnterChild(prefix: FieldPath, node: Value, segment: string) returns (child: Value)
      requires Valid() && node.Map? && WellFormed(node) && Put(value, prefix, node) == value
      modifies this
      ensures Valid()
      ensures child == Child(node, segment)
      ensures value == Put(old(value), prefix, Put(node, [segment], child))
    {
      assert Put(node, [segment], Child(node, segment)) == Map(Upsert(node.entries, segment, Child(node, segment)));
      var entry := FindEntry(node, segment);
      if entry.Some? {
        var j := entry.value;
        LookupAt(node.entries, j);
        if node.entries[j].value.Map? {
          UpsertSame(node.entries, segment);
          child := node.entries[j].value;
        } else {
          // The old value is discarded and the slot now holds an empty map.
          var entries := node.entries[j := Entry(segment, Map([]))];
          UpsertAt(node.entries, j, Map([]));
          value := Put(value, prefix, Map(entries));
          child := Map([]);
        }
      } else {
        var entries := ApplyChanges(node.entries, map[segment := Map([])], [segment], {});
        RewriteUpsert(node.entries, segment, Map([]));
        value := Put(value, prefix, Map(entries));
        child := entries[|entries| - 1].value;
      }
      ChildWellFormed(node, segment);
      PutWellFormed(node, [segment], child);
      PutWellFormed(old(value), prefix, Put(node, [segment], child));
    }

    /**
     * Removes the entry at `path`. Nothing changes when a step on the way to
     * the parent finds no entry, or when the parent is not a map.
     */
    method Delete(path: FieldPath)
      requires Valid() && path != []
      modifies this
      ensures Valid()
      ensures value == Removed(old(value), path)
    {
      var parent := PopLast(path);
      var nested := value;
      var i := 0;
      while i < |parent|
        invariant i <= |parent| && value == old(value)
        invariant GetPath(value, parent[..i]) == Some(nested)
      {
        var entry := FindEntry(nested, parent[i]);
        WalkStep(value, parent, i, nested);
        if entry.None? {
          // There is nothing to delete.
          return;
        }
        nested := nested.entries[entry.value].value;
        i := i + 1;
      }
      assert parent[..|parent|] == parent;
      if nested.Map? {
        var last := LastSegment(path);
        GetPathWellFormed(value, parent);
        var entries := ApplyChanges(nested.entries, map[], [], {last});
        RewriteRemove(nested.entries, last);
        value := Put(value, parent, Map(entries));
        RemoveKeyWellFormed(nested.entries, last);
        PutWellFormed(old(value), parent, Map(entries));
      }
    }

    /** The position of the entry for `segment` when `v` is a map holding one. */
    static method FindEntry(v: Value, segment: string) returns (r: Option<nat>)
      ensures r.Some? ==> v.Map? && r.value < |v.entries| && v.entries[r.value].key == segment
      ensures r.None? <==> !v.Map? || segment !in KeySet(v.entries)
      ensures r == FindIndex(v, segment)
    {
      if v.Map? {
        var i := 0;
        while i < |v.entries|
          invariant i <= |v.entries|
          invariant forall j :: 0 <= j < i ==> v.entries[j].key != segment
        {
          if v.entries[i].key == segment {
            IndexOfFirst(v.entries, segment, i);
            return Some(i);
          }
          i := i + 1;
        }
      }
      KeySetMember(EntriesOf(v), segment);
      return None;
    }
  }

  /**
   * One step of a walk: after `path[..i]` led to `nested`, the entry found
   * for `path[i]` decides the walk one step further, and a missing entry
   * means nothing is found at `path` either.
   */
  lemma WalkStep(v: Value, path: FieldPath, i: nat, nested: Value)
    requires i < |path| && GetPath(v, path[..i]) == Some(nested)
    ensures GetPath(v, path[..i + 1]) ==
      match FindIndex(nested, path[i])
      case None => None
      case Some(j) => Some(nested.entries[j].value)
    ensures FindIndex(nested, path[i]).None? ==> GetPath(v, path) == None
  {
    assert path[..i + 1] == path[..i] + [path[i]];
    GetPathAppend(v, path[..i], [path[i]]);
    assert [path[i]][1..] == [];
    assert path == path[..i + 1] + path[i + 1..];
    GetPathAppend(v, path[..i + 1], path[i + 1..]);
  }

  /** The parent-map walk's invariant carried one segment further. */
  lemma WalkDeeper(v0: Value, prefix: FieldPath, segment: string, node: Value, child: Value, v1: Value, v2: Value)
    requires node == Descend(v0, prefix) && WellFormed(node) && child == Child(node, segment)
    requires v1 == Put(v0, prefix, node) && v2 == Put(v1, prefix, Put(node, [segment], child))
    ensures child == Descend(v0, prefix + [segment]) && child.Map? && WellFormed(child)
    ensures v2 == Put(v0, prefix + [segment], child)
  {
    DescendAppend(v0, prefix, segment);
    PutPut(v0, prefix, node, Put(node, [segment], child));
    PutAppend(v0, prefix, segment, child);
    ChildWellFormed(node, segment);
  }

  // ---------------------------------------------------------------------
  // What a delete does

  /** After a delete nothing is found at the deleted path. */
  lemma RemovedGone(v: Value, p: FieldPath)
    requires p != []
    ensures GetPath(Removed(v, p), p) == None
  {
    var parent, k := PopLast(p), LastSegment(p);
    SplitLast(p);
    GetPathAppend(v, parent, [k]);
    match GetPath(v, parent)
    case Some(Map(es)) =>
      GetPut(v, parent, Map(RemoveKey(es, k)), [k]);
      RemoveKeyKeys(es, k);
      LookupAbsent(RemoveKey(es, k), k);
      GetPathCons(Map(RemoveKey(es, k)), k, []);
    case Some(Leaf(_)) =>
    case None =>
  }

  /** A delete leaves every path that is neither a prefix nor an extension of the deleted one as it was. */
  lemma RemovedOther(v: Value, p: FieldPath, q: FieldPath)
    requires p != [] && !(p <= q) && !(q <= p)
    ensures GetPath(Removed(v, p), q) == GetPath(v, q)
  {
    var parent, k := PopLast(p), LastSegment(p);
    SplitLast(p);
    match GetPath(v, parent)
    case Some(Map(es)) =>
      var x := Map(RemoveKey(es, k));
      if parent <= q {
        // `q` leaves the parent through another key than `k`.
        var rest := q[|parent|..];
        assert q == parent + rest;
        assert rest != [] && rest[0] != k;
        GetPut(v, parent, x, rest);
        GetPathAppend(v, parent, rest);
        assert rest == [rest[0]] + rest[1..];
        GetPathCons(x, rest[0], rest[1..]);
        GetPathCons(Map(es), rest[0], rest[1..]);
        RemoveKeyLookupOther(es, k, rest[0]);
      } else {
        assert !(q <= parent);
        GetPutOther(v, parent, x, q);
      }
    case Some(Leaf(_)) =>
    case None =>
  }

  /** A delete changes the value exactly when something is found at the deleted path. */
  lemma RemovedUnchanged(v: Value, p: FieldPath)
    requires p != []
    ensures Removed(v, p) == v <==> GetPath(v, p).None?
  {
    var parent, k := PopLast(p), LastSegment(p);
    SplitLast(p);
    GetPathAppend(v, parent, [k]);
    RemovedGone(v, p);
    match GetPath(v, parent)
    case Some(Map(es)) =>
      GetPathCons(Map(es), k, []);
      LookupAbsent(es, k);
      if GetPath(v, p).None? {
        RemoveKeyKeys(es, k);
        PutSelf(v, parent);
      }
    case Some(Leaf(_)) =>
    case None =>
  }

  /** Deleting twice is deleting once. */
  lemma RemovedIdempotent(v: Value, p: FieldPath)
    requires p != []
    ensures Removed(Removed(v, p), p) == Removed(v, p)
  {
    RemovedGone(v, p);
    RemovedUnchanged(Removed(v, p), p);
  }

  // ---------------------------------------------------------------------
  // What the parent-map walk does

  /** When `p` already leads to a map, the walk changes nothing and returns that map. */
  lemma ParentMapExisting(v: Value, p: FieldPath)
    requires GetPath(v, p).Some? && GetPath(v, p).value.Map?
    ensures Descend(v, p) == GetPath(v, p).value
    ensures Put(v, p, Descend(v, p)) == v
  {
    if p != [] {
      DescendResolves(v, p);
    }
    PutSelf(v, p);
  }

  /** After the walk, `p` leads to the map it returned, and paths beside `p` are untouched. */
  lemma ParentMapReaches(v: Value, p: FieldPath, q: FieldPath)
    requires v.Map? || p != []
    ensures GetPath(Put(v, p, Descend(v, p)), p) == Some(Descend(v, p))
    ensures Descend(v, p).Map?
    ensures !(p <= q) && !(q <= p) ==> GetPath(Put(v, p, Descend(v, p)), q) == GetPath(v, q)
  {
    GetPut(v, p, Descend(v, p), []);
    assert p + [] == p;
    DescendIsMap(v, p);
    if !(p <= q) && !(q <= p) {
      GetPutOther(v, p, Descend(v, p), q);
    }
  }

  // ---------------------------------------------------------------------
  // Merging and deleting

  /**
   * When the parent of `p` already is a map, clearing `p` in a merge is the
   * same as deleting it; they differ only when the parent is missing or not
   * a map, which a merge replaces by an empty map and a delete leaves alone.
   */
  lemma ClearedIsRemoved(t: Value, p: FieldPath)
    requires p != [] && GetPath(t, PopLast(p)).Some? && GetPath(t, PopLast(p)).value.Map?
    ensures Cleared(t, p) == Removed(t, p)
  {
    ParentMapExisting(t, PopLast(p));
  }
}
