/**
 * The document value tree. A value is either an opaque leaf (null, boolean,
 * number, timestamp, string, bytes, reference, geo point or array: this core
 * never looks inside one) or a map, stored as an ordered sequence of
 * (key, value) entries.
 *
 * Besides lookups, this module holds the reference definitions the mutating
 * operations are proved against: `Upsert` and `RemoveKey` on one entry
 * sequence, and `Put`, which writes a value at a path while turning every
 * missing or non-map step on the way into a map.
 */
module Values {
  import opened Wrappers
  import opened FieldPaths

  datatype Value = Leaf(payload: int) | Map(entries: seq<Entry>)
  datatype Entry = Entry(key: string, value: Value)

  /** The entries of a map; a leaf has none. */
  function EntriesOf(v: Value): seq<Entry> {
    if v.Map? then v.entries else []
  }

  function KeySet(es: seq<Entry>): set<string> {
    set e | e in es :: e.key
  }

  predicate KeysUnique(es: seq<Entry>) {
    forall i, j :: 0 <= i < j < |es| ==> es[i].key != es[j].key
  }

  /** Every map in the tree has unique keys. */
  predicate WellFormed(v: Value)
    decreases v
  {
    match v
    case Leaf(_) => true
    case Map(es) => KeysUnique(es) && forall i :: 0 <= i < |es| ==> WellFormed(es[i].value)
  }

  lemma KeySetMember(es: seq<Entry>, k: string)
    ensures k in KeySet(es) <==> exists i :: 0 <= i < |es| && es[i].key == k
  {
    if k in KeySet(es) {
      var e :| e in es && e.key == k;
      var i :| 0 <= i < |es| && es[i] == e;
    }
    if exists i :: 0 <= i < |es| && es[i].key == k {
      var i :| 0 <= i < |es| && es[i].key == k;
      assert es[i] in es;
    }
  }

  /** The position of the first entry whose key is `k`, if any. */
  function IndexOf(es: seq<Entry>, k: string): (r: Option<nat>)
    ensures r.Some? ==> r.value < |es| && es[r.value].key == k
    ensures r.Some? ==> forall j :: 0 <= j < r.value ==> es[j].key != k
    ensures r.None? <==> forall j :: 0 <= j < |es| ==> es[j].key != k
  {
    if es == [] then None
    else if es[0].key == k then Some(0)
    else match IndexOf(es[1..], k)
      case None => None
      case Some(i) => Some(i + 1)
  }

  lemma IndexOfFirst(es: seq<Entry>, k: string, i: nat)
    requires i < |es| && es[i].key == k
    requires forall j :: 0 <= j < i ==> es[j].key != k
    ensures IndexOf(es, k) == Some(i)
  {
  }

  lemma KeySetSameKeys(a: seq<Entry>, b: seq<Entry>)
    requires |a| == |b| && forall j :: 0 <= j < |a| ==> a[j].key == b[j].key
    ensures KeySet(a) == KeySet(b)
  {
    forall k | k in KeySet(a) ensures k in KeySet(b) {
      KeySetMember(a, k);
      KeySetMember(b, k);
    }
    forall k | k in KeySet(b) ensures k in KeySet(a) {
      KeySetMember(a, k);
      KeySetMember(b, k);
    }
  }

  lemma KeySetSnoc(es: seq<Entry>, e: Entry)
    ensures KeySet(es + [e]) == KeySet(es) + {e.key}
  {
    var r := es + [e];
    forall k | k in KeySet(r)
      ensures k in KeySet(es) + {e.key}
    {
      var x :| x in r && x.key == k;
      if x != e { assert x in es; }
    }
    forall k | k in KeySet(es) + {e.key}
      ensures k in KeySet(r)
    {
      if k in KeySet(es) {
        var x :| x in es && x.key == k;
        assert x in r;
      } else {
        assert e in r;
      }
    }
  }

  /** The value stored under `k`, if any. */
  function Lookup(es: seq<Entry>, k: string): Option<Value> {
    match IndexOf(es, k)
    case None => None
    case Some(i) => Some(es[i].value)
  }

  lemma LookupAbsent(es: seq<Entry>, k: string)
    ensures Lookup(es, k).None? <==> k !in KeySet(es)
  {
    KeySetMember(es, k);
  }

  /** With unique keys, the entry at position `i` is the one `Lookup` finds. */
  lemma LookupAt(es: seq<Entry>, i: nat)
    requires KeysUnique(es) && i < |es|
    ensures IndexOf(es, es[i].key) == Some(i)
    ensures Lookup(es, es[i].key) == Some(es[i].value)
  {
  }

  /** The index of the entry for `segment` when `v` is a map; nothing otherwise. */
  function FindIndex(v: Value, segment: string): (r: Option<nat>)
    ensures !v.Map? ==> r.None?
    ensures r.Some? ==> r.value < |v.entries| && v.entries[r.value].key == segment
    ensures v.Map? && r.None? ==> segment !in KeySet(v.entries)
  {
    if v.Map? then LookupAbsent(v.entries, segment); IndexOf(v.entries, segment) else None
  }

  /**
   * Inserts or replaces the entry for `k`: a present key keeps its slot, an
   * absent key is appended as the last entry, and every other entry keeps its
   * key, value and position.
   */
  function Upsert(es: seq<Entry>, k: string, x: Value): (r: seq<Entry>)
    ensures k in KeySet(es) ==> |r| == |es|
    ensures k !in KeySet(es) ==> |r| == |es| + 1 && r[|es|] == Entry(k, x)
    ensures forall j :: 0 <= j < |es| && es[j].key != k ==> r[j] == es[j]
    ensures forall j :: 0 <= j < |r| ==> r[j] == Entry(k, x) || (j < |es| && r[j] == es[j])
    ensures Lookup(r, k) == Some(x)
    ensures KeySet(r) == KeySet(es) + {k}
  {
    KeySetMember(es, k);
    match IndexOf(es, k)
    case Some(i) =>
      var r := es[i := Entry(k, x)];
      KeySetSameKeys(r, es);
      IndexOfFirst(r, k, i);
      r
    case None =>
      var r := es + [Entry(k, x)];
      IndexOfFirst(r, k, |es|);
      KeySetSnoc(es, Entry(k, x));
      r
  }

  lemma UpsertLookupOther(es: seq<Entry>, k: string, x: Value, k': string)
    requires k' != k
    ensures Lookup(Upsert(es, k, x), k') == Lookup(es, k')
  {
    var r := Upsert(es, k, x);
    match IndexOf(es, k')
    case Some(i) =>
      assert r[i] == es[i];
      IndexOfFirst(r, k', i);
    case None =>
      assert forall j :: 0 <= j < |r| ==> r[j].key != k' by {
        forall j | 0 <= j < |r|
          ensures r[j].key != k'
        {
          if j < |es| && es[j].key != k {
            assert r[j] == es[j];
          }
        }
      }
  }

  lemma UpsertKeysUnique(es: seq<Entry>, k: string, x: Value)
    requires KeysUnique(es)
    ensures KeysUnique(Upsert(es, k, x))
  {
    KeySetMember(es, k);
  }

  /** Writing the value a key already holds changes nothing. */
  lemma UpsertSame(es: seq<Entry>, k: string)
    requires Lookup(es, k).Some?
    ensures Upsert(es, k, Lookup(es, k).value) == es
  {
    KeySetMember(es, k);
  }

  /** A second upsert of the same key overrides the first. */
  lemma UpsertUpsert(es: seq<Entry>, k: string, x: Value, y: Value)
    ensures Upsert(Upsert(es, k, x), k, y) == Upsert(es, k, y)
  {
    KeySetMember(es, k);
    match IndexOf(es, k)
    case Some(i) =>
      IndexOfFirst(es[i := Entry(k, x)], k, i);
    case None =>
      IndexOfFirst(es + [Entry(k, x)], k, |es|);
  }

  /** With unique keys, upserting a present key rewrites its slot and nothing else. */
  lemma UpsertAt(es: seq<Entry>, j: nat, x: Value)
    requires KeysUnique(es) && j < |es|
    ensures Upsert(es, es[j].key, x) == es[j := Entry(es[j].key, x)]
  {
    LookupAt(es, j);
  }

  /** Every entry whose key is `k` is dropped; the others keep their order. */
  function RemoveKey(es: seq<Entry>, k: string): seq<Entry> {
    if es == [] then []
    else
      var rest := RemoveKey(es[..|es| - 1], k);
      var last := es[|es| - 1];
      if last.key == k then rest else rest + [last]
  }

  /** Removing a key takes exactly that key out of the key set, and changes nothing when it is absent. */
  lemma {:induction false} RemoveKeyKeys(es: seq<Entry>, k: string)
    ensures k !in KeySet(RemoveKey(es, k))
    ensures KeySet(RemoveKey(es, k)) == KeySet(es) - {k}
    ensures k !in KeySet(es) ==> RemoveKey(es, k) == es
    decreases |es|
  {
    if es != [] {
      var init, last := es[..|es| - 1], es[|es| - 1];
      var rest := RemoveKey(init, k);
      RemoveKeyKeys(init, k);
      assert es == init + [last];
      KeySetSnoc(init, last);
      KeySetSnoc(rest, last);
    }
  }

  lemma {:induction false} RemoveKeyLookupOther(es: seq<Entry>, k: string, k': string)
    requires k' != k
    ensures Lookup(RemoveKey(es, k), k') == Lookup(es, k')
    decreases |es|
  {
    if es != [] {
      var init, last := es[..|es| - 1], es[|es| - 1];
      assert es == init + [last];
      RemoveKeyLookupOther(init, k, k');
      LookupSnoc(init, last, k');
      if last.key != k {
        LookupSnoc(RemoveKey(init, k), last, k');
      }
    }
  }

  lemma LookupSnoc(es: seq<Entry>, e: Entry, k: string)
    ensures Lookup(es + [e], k) == if Lookup(es, k).Some? then Lookup(es, k) else if e.key == k then Some(e.value) else None
  {
    var r := es + [e];
    match IndexOf(es, k)
    case Some(i) =>
      IndexOfFirst(r, k, i);
    case None =>
      if e.key == k {
        IndexOfFirst(r, k, |es|);
      } else {
        assert forall j :: 0 <= j < |r| ==> r[j].key != k by {
          forall j | 0 <= j < |r| ensures r[j].key != k {
            if j < |es| { assert r[j] == es[j]; }
          }
        }
      }
  }

  lemma {:induction false} RemoveKeyKeepsUnique(es: seq<Entry>, k: string)
    requires KeysUnique(es)
    ensures KeysUnique(RemoveKey(es, k))
    ensures forall e :: e in RemoveKey(es, k) ==> e in es
    decreases |es|
  {
    if es != [] {
      var init, last := es[..|es| - 1], es[|es| - 1];
      assert es == init + [last];
      assert KeysUnique(init) by {
        forall i, j | 0 <= i < j < |init| ensures init[i].key != init[j].key {
          assert init[i] == es[i] && init[j] == es[j];
        }
      }
      RemoveKeyKeepsUnique(init, k);
      var r0 := RemoveKey(init, k);
      if last.key != k {
        var r := r0 + [last];
        assert RemoveKey(es, k) == r;
        forall i, j | 0 <= i < j < |r| ensures r[i].key != r[j].key {
          assert r[i] == r0[i] && r[i] in r0;
          if j < |r0| {
            assert r[j] == r0[j];
          } else {
            var i' :| 0 <= i' < |init| && init[i'] == r[i];
            assert es[i'] == r[i];
          }
        }
      }
    }
  }

  // ---------------------------------------------------------------------
  // Paths through the tree

  /**
   * The value at `p`: the whole value for the empty path; otherwise each
   * segment must name an entry of a map, and the walk stops with nothing at
   * the first missing key or non-map value.
   */
  function GetPath(v: Value, p: FieldPath): Option<Value>
    decreases |p|
  {
    if p == [] then Some(v)
    else match FindIndex(v, p[0])
      case None => None
      case Some(i) => GetPath(v.entries[i].value, p[1..])
  }

  /** The map a walk enters for `k`: the existing map, or a fresh empty one. */
  function Child(v: Value, k: string): (r: Value)
    ensures r.Map?
  {
    match FindIndex(v, k)
    case Some(i) => if v.entries[i].value.Map? then v.entries[i].value else Map([])
    case None => Map([])
  }

  /** The map reached by walking `p` with missing or non-map steps replaced by empty maps. */
  function Descend(v: Value, p: FieldPath): Value
    decreases |p|
  {
    if p == [] then v else Descend(Child(v, p[0]), p[1..])
  }

  /**
   * `v` with `x` written at `p`: each step on the way keeps an existing map,
   * and replaces a missing entry or a non-map value by a map, in the same
   * slot when the key exists and as a new last entry when it does not.
   */
  function Put(v: Value, p: FieldPath, x: Value): Value
    decreases |p|
  {
    if p == [] then x
    else Map(Upsert(EntriesOf(v), p[0], Put(Child(v, p[0]), p[1..], x)))
  }

  lemma FindIndexLookup(v: Value, k: string)
    ensures FindIndex(v, k).Some? <==> Lookup(EntriesOf(v), k).Some?
    ensures FindIndex(v, k).Some? ==> Lookup(EntriesOf(v), k).value == v.entries[FindIndex(v, k).value].value
  {
  }

  /** One step of a walk. */
  lemma GetPathCons(v: Value, k: string, q: FieldPath)
    ensures GetPath(v, [k] + q) ==
      match Lookup(EntriesOf(v), k)
      case None => None
      case Some(c) => GetPath(c, q)
  {
    assert ([k] + q)[0] == k && ([k] + q)[1..] == q;
  }

  /** Walking `p + q` is walking `p`, then `q` from where it ended. */
  lemma {:induction false} GetPathAppend(v: Value, p: FieldPath, q: FieldPath)
    ensures GetPath(v, p + q) ==
      match GetPath(v, p)
      case None => None
      case Some(x) => GetPath(x, q)
    decreases |p|
  {
    if p == [] {
      assert p + q == q;
    } else {
      assert p + q != [] && (p + q)[0] == p[0] && (p + q)[1..] == p[1..] + q;
      match FindIndex(v, p[0])
      case None =>
        assert GetPath(v, p + q) == None && GetPath(v, p) == None;
      case Some(i) =>
        assert GetPath(v, p) == GetPath(v.entries[i].value, p[1..]);
        GetPathAppend(v.entries[i].value, p[1..], q);
        assert GetPath(v, p + q) == GetPath(v.entries[i].value, p[1..] + q);
    }
  }

  /**
   * A walk finds nothing exactly when, at some step, the value reached has no
   * entry for the next segment (because it is not a map or lacks the key).
   */
  lemma {:induction false} GetPathNotFound(v: Value, p: FieldPath)
    ensures GetPath(v, p).None? <==>
      exists i :: 0 <= i < |p| && GetPath(v, p[..i]).Some? && FindIndex(GetPath(v, p[..i]).value, p[i]).None?
    decreases |p|
  {
    if p != [] {
      assert p[..0] == [];
      match FindIndex(v, p[0])
      case None =>
      case Some(j) =>
        var c := v.entries[j].value;
        GetPathNotFound(c, p[1..]);
        forall i | 1 <= i <= |p|
          ensures GetPath(v, p[..i]) == GetPath(c, p[1..][..i - 1])
        {
          assert p[..i] == [p[0]] + p[1..][..i - 1];
          assert p[..i][0] == p[0] && p[..i][1..] == p[1..][..i - 1];
        }
        if GetPath(v, p).None? {
          var i :| 0 <= i < |p| - 1 && GetPath(c, p[1..][..i]).Some? && FindIndex(GetPath(c, p[1..][..i]).value, p[1..][i]).None?;
          assert GetPath(v, p[..i + 1]) == GetPath(c, p[1..][..i]);
        }
        if exists i :: 0 <= i < |p| && GetPath(v, p[..i]).Some? && FindIndex(GetPath(v, p[..i]).value, p[i]).None? {
          var i :| 0 <= i < |p| && GetPath(v, p[..i]).Some? && FindIndex(GetPath(v, p[..i]).value, p[i]).None?;
          assert i != 0;
          assert GetPath(c, p[1..][..i - 1]) == GetPath(v, p[..i]);
          assert p[1..][i - 1] == p[i];
        }
    }
  }

  lemma {:induction false} DescendEmpty(p: FieldPath)
    ensures Descend(Map([]), p) == Map([])
    decreases |p|
  {
    if p != [] {
      DescendEmpty(p[1..]);
    }
  }

  /**
   * The map a walk ends in is the map found at `p` when there is one, and a
   * fresh empty map otherwise.
   */
  lemma {:induction false} DescendResolves(v: Value, p: FieldPath)
    requires p != []
    ensures Descend(v, p) ==
      if GetPath(v, p).Some? && GetPath(v, p).value.Map? then GetPath(v, p).value else Map([])
    decreases |p|
  {
    var c := Child(v, p[0]);
    match FindIndex(v, p[0])
    case None =>
      DescendEmpty(p[1..]);
    case Some(i) =>
      var x := v.entries[i].value;
      if !x.Map? {
        DescendEmpty(p[1..]);
        if p[1..] != [] {
          assert GetPath(x, p[1..]) == None;
        }
      } else if p[1..] != [] {
        DescendResolves(x, p[1..]);
      }
  }

  lemma DescendRoot(v: Value)
    ensures Descend(v, []) == v
  {
  }

  lemma {:induction false} DescendIsMap(v: Value, p: FieldPath)
    requires v.Map? || p != []
    ensures Descend(v, p).Map?
    decreases |p|
  {
    if p != [] {
      DescendIsMap(Child(v, p[0]), p[1..]);
    }
  }

  lemma {:induction false} DescendAppend(v: Value, p: FieldPath, k: string)
    ensures Descend(v, p + [k]) == Child(Descend(v, p), k)
    decreases |p|
  {
    if p == [] {
      assert [] + [k] == [k];
    } else {
      assert (p + [k])[0] == p[0] && (p + [k])[1..] == p[1..] + [k];
      DescendAppend(Child(v, p[0]), p[1..], k);
    }
  }

  /** After writing `x` at `p`, the walk to `p` finds `x`, and walking on from there walks `x`. */
  lemma {:induction false} GetPut(v: Value, p: FieldPath, x: Value, q: FieldPath)
    ensures GetPath(Put(v, p, x), p + q) == GetPath(x, q)
    decreases |p|
  {
    if p == [] {
      assert p + q == q;
    } else {
      var y := Put(Child(v, p[0]), p[1..], x);
      assert (p + q)[0] == p[0] && (p + q)[1..] == p[1..] + q;
      GetPathCons(Put(v, p, x), p[0], p[1..] + q);
      GetPut(Child(v, p[0]), p[1..], x, q);
    }
  }

  /** One step of a walk, on a non-empty path. */
  lemma GetPathStep(v: Value, q: FieldPath)
    requires q != []
    ensures GetPath(v, q) ==
      match Lookup(EntriesOf(v), q[0])
      case None => None
      case Some(c) => GetPath(c, q[1..])
  {
    FindIndexLookup(v, q[0]);
  }

  /** Paths with the same first segment are prefixes of each other exactly when their tails are. */
  lemma PrefixTail(p: FieldPath, q: FieldPath)
    requires p != [] && q != [] && p[0] == q[0]
    ensures p <= q <==> p[1..] <= q[1..]
  {
    if p[1..] <= q[1..] {
      assert p == [p[0]] + p[1..] && q == [q[0]] + q[1..];
    }
  }

  /** Writing at `p` changes nothing at a path that is neither a prefix nor an extension of `p`. */
  lemma {:induction false} GetPutOther(v: Value, p: FieldPath, x: Value, q: FieldPath)
    requires !(p <= q) && !(q <= p)
    ensures GetPath(Put(v, p, x), q) == GetPath(v, q)
    decreases |p|
  {
    var k := p[0];
    var y := Put(Child(v, k), p[1..], x);
    GetPathStep(Put(v, p, x), q);
    GetPathStep(v, q);
    if q[0] != k {
      UpsertLookupOther(EntriesOf(v), k, y, q[0]);
    } else {
      PrefixTail(p, q);
      PrefixTail(q, p);
      GetPutOther(Child(v, k), p[1..], x, q[1..]);
      GetPathStep(Child(v, k), q[1..]);
      FindIndexLookup(v, k);
    }
  }

  /** A second write at the same path overrides the first. */
  lemma {:induction false} PutPut(v: Value, p: FieldPath, x: Value, y: Value)
    ensures Put(Put(v, p, x), p, y) == Put(v, p, y)
    decreases |p|
  {
    if p != [] {
      var k := p[0];
      var c := Child(v, k);
      var w := Put(v, p, x);
      var cx := Put(c, p[1..], x);
      assert Lookup(w.entries, k) == Some(cx);
      if p[1..] != [] {
        assert Child(w, k) == cx;
        PutPut(c, p[1..], x, y);
      }
      UpsertUpsert(EntriesOf(v), k, cx, Put(c, p[1..], y));
    }
  }

  /** Writing below `p` is writing, at `p`, the map found there with one entry upserted. */
  lemma {:induction false} PutAppend(v: Value, p: FieldPath, k: string, x: Value)
    ensures Put(v, p + [k], x) == Put(v, p, Put(Descend(v, p), [k], x))
    decreases |p|
  {
    if p == [] {
      assert [] + [k] == [k];
    } else {
      assert (p + [k])[0] == p[0] && (p + [k])[1..] == p[1..] + [k];
      PutAppend(Child(v, p[0]), p[1..], k, x);
    }
  }

  /** The walk to `p` after writing a map at `p` ends in that map. */
  lemma {:induction false} DescendPut(v: Value, p: FieldPath, x: Value)
    requires x.Map?
    ensures Descend(Put(v, p, x), p) == x
    decreases |p|
  {
    if p != [] {
      var k := p[0];
      var y := Put(Child(v, k), p[1..], x);
      var w := Put(v, p, x);
      assert y.Map?;
      FindIndexLookup(w, k);
      assert Child(w, k) == y;
      DescendPut(Child(v, k), p[1..], x);
    }
  }

  /** Writing back the value already found at `p` changes nothing. */
  lemma {:induction false} PutSelf(v: Value, p: FieldPath)
    requires GetPath(v, p).Some?
    ensures Put(v, p, GetPath(v, p).value) == v
    decreases |p|
  {
    if p != [] {
      var k := p[0];
      var i := FindIndex(v, k).value;
      var c := v.entries[i].value;
      if p[1..] != [] {
        assert c.Map?;
        PutSelf(c, p[1..]);
      }
      UpsertSame(v.entries, k);
    }
  }

  // ---------------------------------------------------------------------
  // Well-formedness is preserved

  lemma ChildWellFormed(v: Value, k: string)
    requires WellFormed(v)
    ensures WellFormed(Child(v, k))
  {
  }

  lemma {:induction false} DescendWellFormed(v: Value, p: FieldPath)
    requires WellFormed(v)
    ensures WellFormed(Descend(v, p))
    decreases |p|
  {
    if p != [] {
      DescendWellFormed(Child(v, p[0]), p[1..]);
    }
  }

  lemma {:induction false} GetPathWellFormed(v: Value, p: FieldPath)
    requires WellFormed(v) && GetPath(v, p).Some?
    ensures WellFormed(GetPath(v, p).value)
    decreases |p|
  {
    if p != [] {
      GetPathWellFormed(v.entries[FindIndex(v, p[0]).value].value, p[1..]);
    }
  }

  lemma UpsertWellFormed(es: seq<Entry>, k: string, x: Value)
    requires WellFormed(Map(es)) && WellFormed(x)
    ensures WellFormed(Map(Upsert(es, k, x)))
  {
    UpsertKeysUnique(es, k, x);
    var r := Upsert(es, k, x);
    forall j | 0 <= j < |r|
      ensures WellFormed(r[j].value)
    {
      if r[j] != Entry(k, x) {
        assert r[j] == es[j];
      }
    }
  }

  lemma {:induction false} PutWellFormed(v: Value, p: FieldPath, x: Value)
    requires WellFormed(v) && WellFormed(x)
    ensures WellFormed(Put(v, p, x))
    decreases |p|
  {
    if p != [] {
      PutWellFormed(Child(v, p[0]), p[1..], x);
      UpsertWellFormed(EntriesOf(v), p[0], Put(Child(v, p[0]), p[1..], x));
    }
  }

  lemma RemoveKeyWellFormed(es: seq<Entry>, k: string)
    requires WellFormed(Map(es))
    ensures WellFormed(Map(RemoveKey(es, k)))
  {
    RemoveKeyKeepsUnique(es, k);
    var r := RemoveKey(es, k);
    forall j | 0 <= j < |r|
      ensures WellFormed(r[j].value)
    {
      assert r[j] in es;
    }
  }

  // ---------------------------------------------------------------------
  // The same data in another entry order

  /**
   * `a` and `b` hold the same data: equal leaves, or maps with the same keys
   * whose values hold the same data, whatever the order of their entries.
   */
  predicate Equiv(a: Value, b: Value)
    decreases a
  {
    match a
    case Leaf(_) => b == a
    case Map(es) =>
      && b.Map?
      && KeySet(es) == KeySet(b.entries)
      && forall i :: 0 <= i < |es| ==>
           Lookup(b.entries, es[i].key).Some? && Equiv(es[i].value, Lookup(b.entries, es[i].key).value)
  }

  lemma {:induction false} EquivRefl(a: Value)
    requires WellFormed(a)
    ensures Equiv(a, a)
    decreases a
  {
    if a.Map? {
      forall i | 0 <= i < |a.entries|
        ensures Lookup(a.entries, a.entries[i].key).Some? &&
                Equiv(a.entries[i].value, Lookup(a.entries, a.entries[i].key).value)
      {
        LookupAt(a.entries, i);
        EquivRefl(a.entries[i].value);
      }
    }
  }

  /** Maps holding the same data find the same keys, with values holding the same data. */
  lemma EquivLookup(es1: seq<Entry>, es2: seq<Entry>, k: string)
    requires KeysUnique(es1) && Equiv(Map(es1), Map(es2))
    ensures Lookup(es1, k).Some? <==> Lookup(es2, k).Some?
    ensures Lookup(es1, k).Some? ==> Equiv(Lookup(es1, k).value, Lookup(es2, k).value)
  {
    LookupAbsent(es1, k);
    LookupAbsent(es2, k);
    if Lookup(es1, k).Some? {
      var i := IndexOf(es1, k).value;
      assert es1[i].key == k;
    }
  }

  /** Maps whose lookups agree key by key hold the same data. */
  lemma EquivByLookup(es1: seq<Entry>, es2: seq<Entry>)
    requires KeysUnique(es1)
    requires forall k :: Lookup(es1, k).Some? <==> Lookup(es2, k).Some?
    requires forall k :: Lookup(es1, k).Some? ==> Equiv(Lookup(es1, k).value, Lookup(es2, k).value)
    ensures Equiv(Map(es1), Map(es2))
  {
    forall k ensures k in KeySet(es1) <==> k in KeySet(es2) {
      LookupAbsent(es1, k);
      LookupAbsent(es2, k);
    }
    assert KeySet(es1) == KeySet(es2);
    forall i | 0 <= i < |es1|
      ensures Lookup(es2, es1[i].key).Some? && Equiv(es1[i].value, Lookup(es2, es1[i].key).value)
    {
      LookupAt(es1, i);
    }
  }

  lemma EquivEntries(a: Value, b: Value)
    requires Equiv(a, b)
    ensures Equiv(Map(EntriesOf(a)), Map(EntriesOf(b)))
  {
  }

  lemma EquivChild(a: Value, b: Value, k: string)
    requires WellFormed(a) && Equiv(a, b)
    ensures Equiv(Child(a, k), Child(b, k))
  {
    if a.Map? {
      FindIndexLookup(a, k);
      FindIndexLookup(b, k);
      EquivLookup(a.entries, b.entries, k);
    }
  }

  lemma {:induction false} EquivDescend(a: Value, b: Value, p: FieldPath)
    requires WellFormed(a) && Equiv(a, b)
    ensures Equiv(Descend(a, p), Descend(b, p))
    decreases |p|
  {
    if p != [] {
      EquivChild(a, b, p[0]);
      EquivDescend(Child(a, p[0]), Child(b, p[0]), p[1..]);
    }
  }

  lemma EquivUpsert(es1: seq<Entry>, es2: seq<Entry>, k: string, x1: Value, x2: Value)
    requires KeysUnique(es1) && Equiv(Map(es1), Map(es2)) && Equiv(x1, x2)
    ensures Equiv(Map(Upsert(es1, k, x1)), Map(Upsert(es2, k, x2)))
  {
    var r1, r2 := Upsert(es1, k, x1), Upsert(es2, k, x2);
    UpsertKeysUnique(es1, k, x1);
    forall k' ensures Lookup(r1, k').Some? <==> Lookup(r2, k').Some?
      ensures Lookup(r1, k').Some? ==> Equiv(Lookup(r1, k').value, Lookup(r2, k').value)
    {
      if k' != k {
        UpsertLookupOther(es1, k, x1, k');
        UpsertLookupOther(es2, k, x2, k');
        EquivLookup(es1, es2, k');
      }
    }
    EquivByLookup(r1, r2);
  }

  /** Writing values that hold the same data into trees that do gives trees that do. */
  lemma {:induction false} EquivPut(a: Value, b: Value, p: FieldPath, x1: Value, x2: Value)
    requires WellFormed(a) && Equiv(a, b) && Equiv(x1, x2)
    ensures Equiv(Put(a, p, x1), Put(b, p, x2))
    decreases |p|
  {
    if p != [] {
      EquivChild(a, b, p[0]);
      EquivPut(Child(a, p[0]), Child(b, p[0]), p[1..], x1, x2);
      EquivEntries(a, b);
      EquivUpsert(EntriesOf(a), EntriesOf(b), p[0], Put(Child(a, p[0]), p[1..], x1), Put(Child(b, p[0]), p[1..], x2));
    }
  }

  /**
   * Trees that hold the same data agree at every path: a walk finds something
   * in one exactly when it does in the other, what it finds holds the same
   * data, and a leaf found in one is found in the other.
   */
  lemma {:induction false} EquivGetPath(a: Value, b: Value, q: FieldPath)
    requires WellFormed(a) && Equiv(a, b)
    ensures GetPath(a, q).Some? <==> GetPath(b, q).Some?
    ensures GetPath(a, q).Some? ==> Equiv(GetPath(a, q).value, GetPath(b, q).value)
    ensures GetPath(a, q).Some? && GetPath(a, q).value.Leaf? ==> GetPath(b, q) == GetPath(a, q)
    decreases |q|
  {
    if q != [] && a.Map? {
      FindIndexLookup(a, q[0]);
      FindIndexLookup(b, q[0]);
      EquivLookup(a.entries, b.entries, q[0]);
      match FindIndex(a, q[0])
      case None =>
      case Some(i) =>
        var j := FindIndex(b, q[0]).value;
        EquivGetPath(a.entries[i].value, b.entries[j].value, q[1..]);
    }
  }
}
