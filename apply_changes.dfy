/**
 * The batched rewrite of one map's entries: given an upsert map and a delete
 * set, one forward pass keeps, replaces or drops each existing entry, then the
 * keys that matched nothing are appended.
 *
 * Two specifications of the forward pass are given. `Pass` is the pass as
 * the implementation writes it: a replacement stores only the new value into
 * the next output slot, which has not been written yet in this pass and so
 * still holds the key of the original entry at that position. `Survivors` is
 * the pass the design describes: a replaced entry keeps its own key. They
 * agree unless an entry is dropped before a replaced one (`PassIsSurvivors`,
 * `ReplaceAfterDropMovesValue`).
 */
module Compaction {
  import opened Wrappers
  import opened FieldPaths
  import opened Values

  /**
   * `order` lists every key of `inserts` once: the order in which the
   * implementation's hash map happens to hand out the keys that are still pending.
   */
  predicate Enumerates(order: seq<string>, inserts: map<string, Value>) {
    && Distinct(order)
    && (forall k :: k in order ==> k in inserts)
    && (forall k :: k in inserts ==> k in order)
  }

  /** An entry the pass removes: deleted and not also upserted. */
  predicate Dropped(e: Entry, inserts: map<string, Value>, deletes: set<string>) {
    e.key in deletes && e.key !in inserts
  }

  /** The shape under which the implementation's pass does what the design says. */
  predicate NoDropBeforeReplace(es: seq<Entry>, inserts: map<string, Value>, deletes: set<string>) {
    forall i, j :: 0 <= i < j < |es| && Dropped(es[i], inserts, deletes) ==> es[j].key !in inserts
  }

  function Keys(es: seq<Entry>): seq<string> {
    seq(|es|, i requires 0 <= i < |es| => es[i].key)
  }

  function SetOf(s: seq<string>): set<string> {
    set x | x in s
  }

  /** How many elements of `s` lie in `S`. */
  function CountIn(s: seq<string>, S: set<string>): nat {
    if s == [] then 0
    else CountIn(s[..|s| - 1], S) + if s[|s| - 1] in S then 1 else 0
  }

  /** The elements of `s` outside `S`, in order. */
  function Without(s: seq<string>, S: set<string>): seq<string> {
    if s == [] then []
    else Without(s[..|s| - 1], S) + if s[|s| - 1] in S then [] else [s[|s| - 1]]
  }

  /** The entries that stay as they are: neither upserted nor deleted. */
  function CountKept(es: seq<Entry>, inserts: map<string, Value>, deletes: set<string>): nat {
    if es == [] then 0
    else
      var e := es[|es| - 1];
      CountKept(es[..|es| - 1], inserts, deletes) + if e.key !in deletes && e.key !in inserts then 1 else 0
  }

  /**
   * The first `n` steps of the implementation's forward pass over `es`: the
   * output written so far. A replaced entry's new value lands in output slot
   * `|r0|`, which still holds the key of the original entry at that position.
   */
  function Pass(es: seq<Entry>, n: nat, inserts: map<string, Value>, deletes: set<string>): (r: seq<Entry>)
    requires n <= |es|
    ensures |r| <= n
  {
    if n == 0 then []
    else
      var r0 := Pass(es, n - 1, inserts, deletes);
      var e := es[n - 1];
      if e.key in inserts then r0 + [Entry(es[|r0|].key, inserts[e.key])]
      else if e.key !in deletes then r0 + [e]
      else r0
  }

  /** The forward pass as designed: replaced entries keep their own key and slot order. */
  function Survivors(es: seq<Entry>, inserts: map<string, Value>, deletes: set<string>): seq<Entry> {
    if es == [] then []
    else
      var r0 := Survivors(es[..|es| - 1], inserts, deletes);
      var e := es[|es| - 1];
      if e.key in inserts then r0 + [Entry(e.key, inserts[e.key])]
      else if e.key !in deletes then r0 + [e]
      else r0
  }

  /** The new entries, in the order `order` gives: the upserts whose key is not in `present`. */
  function Appended(order: seq<string>, inserts: map<string, Value>, present: set<string>): seq<Entry> {
    if order == [] then []
    else
      var k := order[|order| - 1];
      Appended(order[..|order| - 1], inserts, present) +
        if k in inserts && k !in present then [Entry(k, inserts[k])] else []
  }

  /** The entries after the rewrite, as the implementation computes them. */
  function Rewritten(es: seq<Entry>, inserts: map<string, Value>, order: seq<string>, deletes: set<string>): seq<Entry> {
    Pass(es, |es|, inserts, deletes) + Appended(order, inserts, KeySet(es))
  }

  /** The entries after the rewrite, as the design intends them. */
  function RewrittenIntended(es: seq<Entry>, inserts: map<string, Value>, order: seq<string>, deletes: set<string>): seq<Entry> {
    Survivors(es, inserts, deletes) + Appended(order, inserts, KeySet(es))
  }

  // ---------------------------------------------------------------------
  // The in-place algorithm

  /**
   * Rewrites `fields` from `inserts` and `deletes` in one forward pass over a
   * buffer grown beforehand to the final size, then appends the unmatched
   * upserts in `order` and cuts the buffer to the final size.
   */
  method ApplyChanges(fields: seq<Entry>, inserts: map<string, Value>, order: seq<string>, deletes: set<string>)
    returns (result: seq<Entry>)
    requires KeysUnique(fields)
    requires Enumerates(order, inserts)
    ensures result == Rewritten(fields, inserts, order, deletes)
    ensures |result| == |inserts| + CountKept(fields, inserts, deletes)
  {
    var count := |fields|;
    var targetSize := |inserts| + CountKept(fields, inserts, deletes);
    RewrittenSize(fields, inserts, order, deletes);
    // Grow before rearranging, so that no entry is overwritten before it is read.
    var capacity := if targetSize > count then targetSize else count;
    var a := new Entry[capacity](i => if 0 <= i < count then fields[i] else Entry([], Leaf(0)));
    assert a[..count] == fields;

    var target, pending := ForwardPass(a, count, fields, inserts, deletes);
    PendingEnd(fields, inserts);
    target := AppendPending(a, target, pending, order, inserts, KeySet(fields));
    // Shrink only now that every surviving entry has been placed.
    result := a[..targetSize];
  }

  /**
   * The forward pass of `ApplyChanges` over the first `|fields|` slots of
   * `a`: each entry is replaced, kept or dropped, and every matched upsert is
   * erased from the pending map.
   */
  method ForwardPass(a: array<Entry>, count: nat, ghost fields: seq<Entry>, inserts: map<string, Value>, deletes: set<string>)
    returns (target: nat, pending: map<string, Value>)
    requires KeysUnique(fields)
    requires count == |fields| <= a.Length && a[..count] == fields
    modifies a
    ensures target <= count
    ensures a[..target] == Pass(fields, |fields|, inserts, deletes)
    ensures pending == Pending(fields, |fields|, inserts)
  {
    pending := inserts;
    target := 0;
    var source := 0;
    while source < count
      invariant target <= source <= count
      invariant a[..target] == Pass(fields, source, inserts, deletes)
      invariant forall j :: target <= j < |fields| ==> a[j] == fields[j]
      invariant pending == Pending(fields, source, inserts)
    {
      target, pending := ForwardOne(a, count, fields, inserts, deletes, source, target, pending);
      source := source + 1;
    }
  }

  /**
   * One step of the forward pass, for the entry at `source`: a replacement
   * stores its new value into slot `target`, a kept entry is moved to slot
   * `target`, a dropped one is skipped.
   */
  method ForwardOne(a: array<Entry>, count: nat, ghost fields: seq<Entry>, inserts: map<string, Value>, deletes: set<string>,
                    source: nat, target: nat, pending: map<string, Value>)
    returns (target': nat, pending': map<string, Value>)
    requires KeysUnique(fields)
    requires count == |fields| <= a.Length && target <= source < count
    requires a[..target] == Pass(fields, source, inserts, deletes)
    requires forall j :: target <= j < |fields| ==> a[j] == fields[j]
    requires pending == Pending(fields, source, inserts)
    modifies a
    ensures target' <= source + 1
    ensures a[..target'] == Pass(fields, source + 1, inserts, deletes)
    ensures forall j :: target' <= j < |fields| ==> a[j] == fields[j]
    ensures pending' == Pending(fields, source + 1, inserts)
  {
    var key := a[source].key;
    ghost var done := a[..target];
    ForwardStep(fields, source, inserts, deletes);
    target', pending' := target, pending;
    if key in pending {
      // Only the value is stored: the slot keeps the key it already holds.
      a[target] := a[target].(value := pending[key]);
      assert a[..target + 1] == done + [a[target]];
      pending' := pending - {key};
      target' := target + 1;
    } else if key !in deletes {
      a[target] := a[source];
      assert a[..target + 1] == done + [a[target]];
      target' := target + 1;
    }
  }

  /**
   * Appends, after slot `target`, every pending upsert in the order `order`
   * lists its key.
   */
  method AppendPending(a: array<Entry>, target: nat, pending: map<string, Value>, order: seq<string>,
                       ghost inserts: map<string, Value>, ghost present: set<string>)
    returns (end: nat)
    requires pending == inserts - present
    requires target + |Appended(order, inserts, present)| <= a.Length
    modifies a
    ensures end == target + |Appended(order, inserts, present)|
    ensures a[..end] == old(a[..target]) + Appended(order, inserts, present)
  {
    end := target;
    var i := 0;
    while i < |order|
      invariant i <= |order|
      invariant end == target + |Appended(order[..i], inserts, present)|
      invariant end <= a.Length
      invariant a[..end] == old(a[..target]) + Appended(order[..i], inserts, present)
    {
      var key := order[i];
      assert order[..i + 1][..i] == order[..i];
      ghost var done := a[..end];
      if key in pending {
        AppendedPrefixSize(order, inserts, present, i + 1);
        a[end] := Entry(key, pending[key]);
        assert a[..end + 1] == done + [a[end]];
        end := end + 1;
      }
      i := i + 1;
    }
    assert order[..|order|] == order;
  }

  /** One step of the forward pass. */
  lemma PassStep(es: seq<Entry>, n: nat, inserts: map<string, Value>, deletes: set<string>)
    requires n < |es|
    ensures
      var r0 := Pass(es, n, inserts, deletes);
      var e := es[n];
      && |r0| <= n
      && Pass(es, n + 1, inserts, deletes) ==
        if e.key in inserts then r0 + [Entry(es[|r0|].key, inserts[e.key])]
        else if e.key !in deletes then r0 + [e]
        else r0
    ensures Pending(es, n + 1, inserts) == Pending(es, n, inserts) - {es[n].key}
  {
  }

  /** One step of the forward pass, in terms of the pending upserts the loop keeps. */
  lemma ForwardStep(es: seq<Entry>, n: nat, inserts: map<string, Value>, deletes: set<string>)
    requires KeysUnique(es) && n < |es|
    ensures
      var r0 := Pass(es, n, inserts, deletes);
      var pending := Pending(es, n, inserts);
      var key := es[n].key;
      && |r0| <= n
      && Pending(es, n + 1, inserts) == pending - {key}
      && (key in pending ==> Pass(es, n + 1, inserts, deletes) == r0 + [Entry(es[|r0|].key, pending[key])])
      && (key !in pending && key !in deletes ==> Pass(es, n + 1, inserts, deletes) == r0 + [es[n]])
      && (key !in pending && key in deletes ==> Pass(es, n + 1, inserts, deletes) == r0)
  {
    PendingAt(es, n, n, inserts);
    PassStep(es, n, inserts, deletes);
  }

  /** The upserts not yet matched after `n` steps of the forward pass. */
  function Pending(es: seq<Entry>, n: nat, inserts: map<string, Value>): map<string, Value>
    requires n <= |es|
  {
    if n == 0 then inserts else Pending(es, n - 1, inserts) - {es[n - 1].key}
  }

  lemma {:induction false} PendingAt(es: seq<Entry>, m: nat, n: nat, inserts: map<string, Value>)
    requires KeysUnique(es) && m <= n < |es|
    ensures es[n].key in Pending(es, m, inserts) <==> es[n].key in inserts
    ensures es[n].key in inserts ==> Pending(es, m, inserts)[es[n].key] == inserts[es[n].key]
  {
    if m > 0 {
      PendingAt(es, m - 1, n, inserts);
    }
  }

  lemma {:induction false} PendingEnd(es: seq<Entry>, inserts: map<string, Value>)
    ensures Pending(es, |es|, inserts) == inserts - KeySet(es)
    decreases |es|
  {
    if es != [] {
      var init, e := es[..|es| - 1], es[|es| - 1];
      PendingEnd(init, inserts);
      PendingPrefix(es, |init|, inserts);
      KeySetSnoc(init, e);
      assert es == init + [e];
    }
  }

  lemma {:induction false} PendingPrefix(es: seq<Entry>, n: nat, inserts: map<string, Value>)
    requires n <= |es|
    ensures Pending(es, n, inserts) == Pending(es[..n], n, inserts)
    decreases n
  {
    if n > 0 {
      PendingPrefix(es, n - 1, inserts);
      PendingPrefix(es[..n], n - 1, inserts);
      assert es[..n][..n - 1] == es[..n - 1];
    }
  }

  // ---------------------------------------------------------------------
  // Sizes

  lemma {:induction false} AppendedPrefixSize(order: seq<string>, inserts: map<string, Value>, present: set<string>, m: nat)
    requires m <= |order|
    ensures |Appended(order[..m], inserts, present)| <= |Appended(order, inserts, present)|
    decreases |order|
  {
    if m < |order| {
      assert order[..|order| - 1][..m] == order[..m];
      AppendedPrefixSize(order[..|order| - 1], inserts, present, m);
    } else {
      assert order[..m] == order;
    }
  }

  /** Splitting the last element off a sequence without repetitions. */
  lemma DistinctSnoc(s: seq<string>)
    requires Distinct(s) && s != []
    ensures Distinct(s[..|s| - 1])
    ensures s[|s| - 1] !in SetOf(s[..|s| - 1])
    ensures SetOf(s) == SetOf(s[..|s| - 1]) + {s[|s| - 1]}
  {
    var init, x := s[..|s| - 1], s[|s| - 1];
    forall i, j | 0 <= i < j < |init| ensures init[i] != init[j] {
      assert init[i] == s[i] && init[j] == s[j];
    }
    forall i | 0 <= i < |init| ensures init[i] != x {
      assert init[i] == s[i];
    }
    assert s == init + [x];
  }

  lemma {:induction false} CountInDistinct(s: seq<string>, S: set<string>)
    requires Distinct(s)
    ensures CountIn(s, S) == |SetOf(s) * S|
    decreases |s|
  {
    if s != [] {
      var init, x := s[..|s| - 1], s[|s| - 1];
      DistinctSnoc(s);
      CountInDistinct(init, S);
      var A := SetOf(init) * S;
      if x in S {
        assert SetOf(s) * S == A + {x} && x !in A;
      } else {
        assert SetOf(s) * S == A;
      }
    }
  }

  lemma {:induction false} CountInAll(s: seq<string>, S: set<string>)
    requires forall x :: x in s ==> x in S
    ensures CountIn(s, S) == |s|
    decreases |s|
  {
    if s != [] {
      CountInAll(s[..|s| - 1], S);
    }
  }

  lemma {:induction false} AppendedSize(order: seq<string>, inserts: map<string, Value>, present: set<string>)
    requires forall k :: k in order ==> k in inserts
    ensures |Appended(order, inserts, present)| + CountIn(order, present) == |order|
    decreases |order|
  {
    if order != [] {
      AppendedSize(order[..|order| - 1], inserts, present);
    }
  }

  lemma {:induction false} PassSize(es: seq<Entry>, n: nat, inserts: map<string, Value>, deletes: set<string>)
    requires n <= |es|
    ensures |Pass(es, n, inserts, deletes)| == CountKept(es[..n], inserts, deletes) + CountIn(Keys(es[..n]), inserts.Keys)
  {
    if n > 0 {
      PassSize(es, n - 1, inserts, deletes);
      assert es[..n][..n - 1] == es[..n - 1];
      assert Keys(es[..n])[..n - 1] == Keys(es[..n - 1]);
    }
  }

  lemma KeysSnoc(es: seq<Entry>, e: Entry)
    ensures Keys(es + [e]) == Keys(es) + [e.key]
  {
  }

  lemma KeysSet(es: seq<Entry>)
    ensures SetOf(Keys(es)) == KeySet(es)
  {
    var ks := Keys(es);
    forall k | k in KeySet(es) ensures k in SetOf(ks) {
      KeySetMember(es, k);
      var i :| 0 <= i < |es| && es[i].key == k;
      assert ks[i] == k;
    }
    forall k | k in SetOf(ks) ensures k in KeySet(es) {
      var i :| 0 <= i < |ks| && ks[i] == k;
      assert es[i] in es;
    }
  }

  lemma KeysDistinct(es: seq<Entry>)
    ensures KeysUnique(es) <==> Distinct(Keys(es))
  {
    var ks := Keys(es);
    assert forall i :: 0 <= i < |es| ==> ks[i] == es[i].key;
  }

  lemma {:induction false} WithoutSet(s: seq<string>, S: set<string>)
    ensures SetOf(Without(s, S)) == SetOf(s) - S
    decreases |s|
  {
    if s != [] {
      var init, x := s[..|s| - 1], s[|s| - 1];
      assert s == init + [x];
      WithoutSet(init, S);
      assert SetOf(s) == SetOf(init) + {x};
      var w := Without(init, S);
      if x in S {
        assert Without(s, S) == w + [] == w;
        assert SetOf(s) - S == SetOf(init) - S;
      } else {
        assert Without(s, S) == w + [x];
        assert SetOf(w + [x]) == SetOf(w) + {x};
      }
    }
  }

  lemma {:induction false} WithoutDistinct(s: seq<string>, S: set<string>)
    requires Distinct(s)
    ensures Distinct(Without(s, S))
    decreases |s|
  {
    if s != [] {
      var init, x := s[..|s| - 1], s[|s| - 1];
      assert s == init + [x];
      assert Distinct(init) by {
        forall i, j | 0 <= i < j < |init| ensures init[i] != init[j] {
          assert init[i] == s[i] && init[j] == s[j];
        }
      }
      WithoutDistinct(init, S);
      WithoutSet(init, S);
      if x !in S {
        var w := Without(init, S);
        assert x !in SetOf(init);
        assert x !in SetOf(w);
        forall i, j | 0 <= i < j < |w + [x]| ensures (w + [x])[i] != (w + [x])[j] {
          if j == |w| {
            assert (w + [x])[i] == w[i];
            assert w[i] in SetOf(w);
          }
        }
      }
    }
  }

  /** The final entry count is `|inserts|` plus the entries neither upserted nor deleted. */
  lemma RewrittenSize(es: seq<Entry>, inserts: map<string, Value>, order: seq<string>, deletes: set<string>)
    requires KeysUnique(es) && Enumerates(order, inserts)
    ensures |Rewritten(es, inserts, order, deletes)| == |inserts| + CountKept(es, inserts, deletes)
  {
    assert es[..|es|] == es;
    PassSize(es, |es|, inserts, deletes);
    AppendedSize(order, inserts, KeySet(es));
    KeysDistinct(es);
    KeysSet(es);
    CountInDistinct(Keys(es), inserts.Keys);
    CountInDistinct(order, KeySet(es));
    CountInDistinct(order, SetOf(order));
    CountInAll(order, SetOf(order));
    assert SetOf(order) == inserts.Keys;
    assert SetOf(order) * SetOf(order) == SetOf(order);
    assert KeySet(es) * inserts.Keys == inserts.Keys * KeySet(es);
  }

  // ---------------------------------------------------------------------
  // The implementation's pass against the intended one

  lemma {:induction false} PassFullLength(es: seq<Entry>, n: nat, inserts: map<string, Value>, deletes: set<string>)
    requires n <= |es|
    requires forall i :: 0 <= i < n ==> !Dropped(es[i], inserts, deletes)
    ensures |Pass(es, n, inserts, deletes)| == n
  {
    if n > 0 {
      PassFullLength(es, n - 1, inserts, deletes);
    }
  }

  /** When no dropped entry precedes a replaced one, the implementation's pass is the intended one. */
  lemma {:induction false} PassIsSurvivors(es: seq<Entry>, n: nat, inserts: map<string, Value>, deletes: set<string>)
    requires n <= |es|
    requires NoDropBeforeReplace(es, inserts, deletes)
    ensures Pass(es, n, inserts, deletes) == Survivors(es[..n], inserts, deletes)
  {
    if n > 0 {
      PassIsSurvivors(es, n - 1, inserts, deletes);
      assert es[..n][..n - 1] == es[..n - 1];
      if es[n - 1].key in inserts {
        PassFullLength(es, n - 1, inserts, deletes);
      }
    }
  }

  lemma RewrittenIsIntended(es: seq<Entry>, inserts: map<string, Value>, order: seq<string>, deletes: set<string>)
    requires NoDropBeforeReplace(es, inserts, deletes)
    ensures Rewritten(es, inserts, order, deletes) == RewrittenIntended(es, inserts, order, deletes)
  {
    PassIsSurvivors(es, |es|, inserts, deletes);
    assert es[..|es|] == es;
  }

  /** Whatever the shape, the implementation's pass writes the intended values in the intended slots. */
  lemma {:induction false} PassValues(es: seq<Entry>, n: nat, inserts: map<string, Value>, deletes: set<string>)
    requires n <= |es|
    ensures |Pass(es, n, inserts, deletes)| == |Survivors(es[..n], inserts, deletes)|
    ensures forall j :: 0 <= j < |Pass(es, n, inserts, deletes)| ==>
      Pass(es, n, inserts, deletes)[j].value == Survivors(es[..n], inserts, deletes)[j].value
  {
    if n > 0 {
      PassValues(es, n - 1, inserts, deletes);
      assert es[..n][..n - 1] == es[..n - 1];
    }
  }

  /**
   * A replacement after a deletion, in one batch: deleting "a" and replacing
   * "b" in [a, b] leaves the new value of "b" under the key "a".
   */
  lemma ReplaceAfterDropMovesValue()
    ensures Rewritten([Entry("a", Leaf(1)), Entry("b", Leaf(2))], map["b" := Leaf(3)], ["b"], {"a"})
         == [Entry("a", Leaf(3))]
    ensures RewrittenIntended([Entry("a", Leaf(1)), Entry("b", Leaf(2))], map["b" := Leaf(3)], ["b"], {"a"})
         == [Entry("b", Leaf(3))]
  {
    var es := [Entry("a", Leaf(1)), Entry("b", Leaf(2))];
    var ins, del := map["b" := Leaf(3)], {"a"};
    assert es[..1] == [Entry("a", Leaf(1))] && es[..1][..0] == [];
    assert Pass(es, 1, ins, del) == [];
    assert Pass(es, 2, ins, del) == [Entry("a", Leaf(3))];
    assert Survivors(es[..1], ins, del) == [];
    assert Survivors(es, ins, del) == [Entry("b", Leaf(3))];
    assert "b" in KeySet(es) by { assert es[1] in es; }
    assert ["b"][..0] == [];
    assert Appended(["b"], ins, KeySet(es)) == [];
  }

  /**
   * Replacing "c" after deleting "a" in [a, b, c] leaves "b" twice and loses
   * "c": the result no longer has unique keys.
   */
  lemma ReplaceAfterDropDuplicatesKey()
    ensures var es := [Entry("a", Leaf(1)), Entry("b", Leaf(2)), Entry("c", Leaf(3))];
      && Rewritten(es, map["c" := Leaf(9)], ["c"], {"a"}) == [Entry("b", Leaf(2)), Entry("b", Leaf(9))]
      && !KeysUnique(Rewritten(es, map["c" := Leaf(9)], ["c"], {"a"}))
  {
    var es := [Entry("a", Leaf(1)), Entry("b", Leaf(2)), Entry("c", Leaf(3))];
    var ins, del := map["c" := Leaf(9)], {"a"};
    assert Pass(es, 1, ins, del) == [];
    assert Pass(es, 2, ins, del) == [Entry("b", Leaf(2))];
    assert Pass(es, 3, ins, del) == [Entry("b", Leaf(2)), Entry("b", Leaf(9))];
    assert "c" in KeySet(es) by { assert es[2] in es; }
    assert ["c"][..0] == [];
    assert Appended(["c"], ins, KeySet(es)) == [];
    var r := Rewritten(es, ins, ["c"], del);
    assert r[0].key == r[1].key;
  }

  // ---------------------------------------------------------------------
  // What the intended rewrite stores

  lemma LookupConcat(a: seq<Entry>, b: seq<Entry>, k: string)
    ensures Lookup(a + b, k) == if Lookup(a, k).Some? then Lookup(a, k) else Lookup(b, k)
  {
    var r := a + b;
    match IndexOf(a, k)
    case Some(i) =>
      IndexOfFirst(r, k, i);
    case None =>
      match IndexOf(b, k)
      case Some(i) =>
        IndexOfFirst(r, k, |a| + i);
      case None =>
        assert forall j :: 0 <= j < |r| ==> r[j].key != k by {
          forall j | 0 <= j < |r| ensures r[j].key != k {
            if j < |a| { assert r[j] == a[j]; } else { assert r[j] == b[j - |a|]; }
          }
        }
  }

  /** The keys of the intended pass: the original keys in order, less those dropped. */
  lemma {:induction false} SurvivorsKeys(es: seq<Entry>, inserts: map<string, Value>, deletes: set<string>)
    ensures Keys(Survivors(es, inserts, deletes)) == Without(Keys(es), deletes - inserts.Keys)
    decreases |es|
  {
    if es != [] {
      var init, e := es[..|es| - 1], es[|es| - 1];
      var r0 := Survivors(init, inserts, deletes);
      assert es == init + [e];
      SurvivorsKeys(init, inserts, deletes);
      KeysSnoc(init, e);
      assert Keys(es)[..|Keys(es)| - 1] == Keys(init);
      if e.key in inserts {
        KeysSnoc(r0, Entry(e.key, inserts[e.key]));
      } else if e.key !in deletes {
        KeysSnoc(r0, e);
      }
    }
  }

  /** Survivors of a map with unique keys have unique keys, all drawn from the original ones. */
  lemma SurvivorsUnique(es: seq<Entry>, inserts: map<string, Value>, deletes: set<string>)
    ensures KeySet(Survivors(es, inserts, deletes)) == KeySet(es) - (deletes - inserts.Keys)
    ensures KeysUnique(es) ==> KeysUnique(Survivors(es, inserts, deletes))
  {
    var r := Survivors(es, inserts, deletes);
    SurvivorsKeys(es, inserts, deletes);
    KeysSet(r);
    KeysSet(es);
    WithoutSet(Keys(es), deletes - inserts.Keys);
    KeysDistinct(r);
    KeysDistinct(es);
    if KeysUnique(es) {
      WithoutDistinct(Keys(es), deletes - inserts.Keys);
    }
  }

  lemma {:induction false} SurvivorsLookup(es: seq<Entry>, inserts: map<string, Value>, deletes: set<string>, k: string)
    requires KeysUnique(es)
    ensures Lookup(Survivors(es, inserts, deletes), k) ==
      if k !in KeySet(es) then None
      else if k in inserts then Some(inserts[k])
      else if k in deletes then None
      else Lookup(es, k)
    decreases |es|
  {
    LookupAbsent(es, k);
    if es != [] {
      var init, e := es[..|es| - 1], es[|es| - 1];
      var r0 := Survivors(init, inserts, deletes);
      assert es == init + [e];
      assert KeysUnique(init);
      SurvivorsLookup(init, inserts, deletes, k);
      KeySetSnoc(init, e);
      LookupSnoc(init, e, k);
      LookupAbsent(init, k);
      if e.key == k {
        KeySetMember(init, k);
        assert k !in KeySet(init);
      }
      if e.key in inserts {
        LookupSnoc(r0, Entry(e.key, inserts[e.key]), k);
      } else if e.key !in deletes {
        LookupSnoc(r0, e, k);
      }
    }
  }

  /** The keys of the appended entries: the keys of `order` not already present, in order. */
  lemma {:induction false} AppendedKeys(order: seq<string>, inserts: map<string, Value>, present: set<string>)
    requires forall k :: k in order ==> k in inserts
    ensures Keys(Appended(order, inserts, present)) == Without(order, present)
    decreases |order|
  {
    if order != [] {
      var init, k := order[..|order| - 1], order[|order| - 1];
      var r0 := Appended(init, inserts, present);
      assert order == init + [k];
      AppendedKeys(init, inserts, present);
      KeysSnoc(r0, Entry(k, inserts[k]));
    }
  }

  lemma AppendedUnique(order: seq<string>, inserts: map<string, Value>, present: set<string>)
    requires forall k :: k in order ==> k in inserts
    ensures KeySet(Appended(order, inserts, present)) == SetOf(order) - present
    ensures Distinct(order) ==> KeysUnique(Appended(order, inserts, present))
  {
    var r := Appended(order, inserts, present);
    AppendedKeys(order, inserts, present);
    KeysSet(r);
    WithoutSet(order, present);
    KeysDistinct(r);
    if Distinct(order) {
      WithoutDistinct(order, present);
    }
  }

  lemma {:induction false} AppendedLookup(order: seq<string>, inserts: map<string, Value>, present: set<string>, k: string)
    ensures Lookup(Appended(order, inserts, present), k) ==
      if k in order && k in inserts && k !in present then Some(inserts[k]) else None
    decreases |order|
  {
    if order != [] {
      var init, x := order[..|order| - 1], order[|order| - 1];
      var r0 := Appended(init, inserts, present);
      assert order == init + [x];
      assert k in order <==> k in init || k == x;
      AppendedLookup(init, inserts, present, k);
      if x in inserts && x !in present {
        LookupSnoc(r0, Entry(x, inserts[x]), k);
      } else {
        assert Appended(order, inserts, present) == r0;
      }
    }
  }

  lemma KeysUniqueConcat(a: seq<Entry>, b: seq<Entry>)
    requires KeysUnique(a) && KeysUnique(b) && KeySet(a) !! KeySet(b)
    ensures KeysUnique(a + b)
  {
    var r := a + b;
    forall i, j | 0 <= i < j < |r| ensures r[i].key != r[j].key {
      if j < |a| {
        assert r[i] == a[i] && r[j] == a[j];
      } else if i >= |a| {
        assert r[i] == b[i - |a|] && r[j] == b[j - |a|];
      } else {
        assert r[i] == a[i] && r[j] == b[j - |a|];
        assert a[i] in a && b[j - |a|] in b;
        assert a[i].key in KeySet(a) && b[j - |a|].key in KeySet(b);
      }
    }
  }

  /**
   * After the intended rewrite every key is an upserted key with its new value,
   * a deleted key is gone unless it was also upserted, every other key keeps its
   * value, and no key appears twice.
   */
  lemma RewriteLookup(es: seq<Entry>, inserts: map<string, Value>, order: seq<string>, deletes: set<string>, k: string)
    requires KeysUnique(es) && Enumerates(order, inserts)
    ensures Lookup(RewrittenIntended(es, inserts, order, deletes), k) ==
      if k in inserts then Some(inserts[k])
      else if k in deletes then None
      else Lookup(es, k)
    ensures KeysUnique(RewrittenIntended(es, inserts, order, deletes))
  {
    var s := Survivors(es, inserts, deletes);
    var a := Appended(order, inserts, KeySet(es));
    LookupConcat(s, a, k);
    SurvivorsLookup(es, inserts, deletes, k);
    AppendedLookup(order, inserts, KeySet(es), k);
    LookupAbsent(es, k);
    LookupAbsent(s, k);
    SurvivorsUnique(es, inserts, deletes);
    AppendedUnique(order, inserts, KeySet(es));
    KeysUniqueConcat(s, a);
  }

  /**
   * Order: the kept and replaced entries come first, in their original order,
   * followed by the new keys in the order `order` gives.
   */
  lemma RewriteOrder(es: seq<Entry>, inserts: map<string, Value>, order: seq<string>, deletes: set<string>)
    requires Enumerates(order, inserts)
    ensures Keys(RewrittenIntended(es, inserts, order, deletes)) ==
      Without(Keys(es), deletes - inserts.Keys) + Without(order, KeySet(es))
  {
    var s := Survivors(es, inserts, deletes);
    var a := Appended(order, inserts, KeySet(es));
    SurvivorsKeys(es, inserts, deletes);
    AppendedKeys(order, inserts, KeySet(es));
    assert Keys(s + a) == Keys(s) + Keys(a);
  }

  // ---------------------------------------------------------------------
  // The three call shapes of Set, Delete and the parent-map walk

  lemma {:induction false} SurvivorsNoDeletes(es: seq<Entry>, inserts: map<string, Value>)
    ensures |Survivors(es, inserts, {})| == |es|
    ensures forall j :: 0 <= j < |es| ==>
      Survivors(es, inserts, {})[j] == if es[j].key in inserts then Entry(es[j].key, inserts[es[j].key]) else es[j]
    decreases |es|
  {
    if es != [] {
      SurvivorsNoDeletes(es[..|es| - 1], inserts);
    }
  }

  lemma {:induction false} SurvivorsNoInserts(es: seq<Entry>, k: string)
    ensures Survivors(es, map[], {k}) == RemoveKey(es, k)
    decreases |es|
  {
    if es != [] {
      SurvivorsNoInserts(es[..|es| - 1], k);
    }
  }

  /** A single upsert and no deletes: the implementation's rewrite is `Upsert`. */
  lemma RewriteUpsert(es: seq<Entry>, k: string, x: Value)
    requires KeysUnique(es)
    ensures Rewritten(es, map[k := x], [k], {}) == Upsert(es, k, x)
    ensures RewrittenIntended(es, map[k := x], [k], {}) == Upsert(es, k, x)
  {
    var ins := map[k := x];
    RewrittenIsIntended(es, ins, [k], {});
    assert [k][..0] == [];
    if k in KeySet(es) {
      assert Appended([k], ins, KeySet(es)) == [];
      UpsertPresent(es, k, x);
    } else {
      assert Appended([k], ins, KeySet(es)) == [Entry(k, x)];
      UpsertAbsent(es, k, x);
    }
  }

  lemma UpsertPresent(es: seq<Entry>, k: string, x: Value)
    requires KeysUnique(es) && k in KeySet(es)
    ensures Survivors(es, map[k := x], {}) == Upsert(es, k, x)
  {
    var ins := map[k := x];
    SurvivorsNoDeletes(es, ins);
    var r := Survivors(es, ins, {});
    var u := Upsert(es, k, x);
    assert |r| == |u|;
    forall j | 0 <= j < |es| ensures r[j] == u[j] {
      if es[j].key == k {
        LookupAt(es, j);
        LookupAt(u, j) by { UpsertKeysUnique(es, k, x); }
      }
    }
  }

  lemma UpsertAbsent(es: seq<Entry>, k: string, x: Value)
    requires k !in KeySet(es)
    ensures Survivors(es, map[k := x], {}) + [Entry(k, x)] == Upsert(es, k, x)
  {
    var ins := map[k := x];
    SurvivorsNoDeletes(es, ins);
    KeySetMember(es, k);
    assert forall j :: 0 <= j < |es| ==> es[j].key != k;
    assert Survivors(es, ins, {}) == es;
    UpsertFresh(es, k, x);
  }

  /** A single delete and no upserts: the implementation's rewrite is `RemoveKey`. */
  lemma RewriteRemove(es: seq<Entry>, k: string)
    ensures Rewritten(es, map[], [], {k}) == RemoveKey(es, k)
    ensures RewrittenIntended(es, map[], [], {k}) == RemoveKey(es, k)
  {
    RewrittenIsIntended(es, map[], [], {k});
    SurvivorsNoInserts(es, k);
  }

  /** No upserts and no deletes leave the entries exactly as they were. */
  lemma RewriteNothing(es: seq<Entry>)
    ensures Rewritten(es, map[], [], {}) == es
    ensures RewrittenIntended(es, map[], [], {}) == es
  {
    RewrittenIsIntended(es, map[], [], {});
    SurvivorsNoDeletes(es, map[]);
  }

  // ---------------------------------------------------------------------
  // A batch is a sequence of single-key changes

  /** Upserting a key that is neither upserted nor deleted yet rewrites its entries in place. */
  lemma {:induction false} SurvivorsUpdate(es: seq<Entry>, inserts: map<string, Value>, deletes: set<string>, k: string, x: Value)
    requires k !in inserts && k !in deletes
    ensures |Survivors(es, inserts[k := x], deletes)| == |Survivors(es, inserts, deletes)|
    ensures forall j :: 0 <= j < |Survivors(es, inserts, deletes)| ==>
      Survivors(es, inserts[k := x], deletes)[j] ==
        if Survivors(es, inserts, deletes)[j].key == k then Entry(k, x) else Survivors(es, inserts, deletes)[j]
    decreases |es|
  {
    if es != [] {
      SurvivorsUpdate(es[..|es| - 1], inserts, deletes, k, x);
    }
  }

  /** Deleting one more key that is not upserted removes its entries from the kept ones. */
  lemma {:induction false} SurvivorsDeleteMore(es: seq<Entry>, inserts: map<string, Value>, deletes: set<string>, k: string)
    requires k !in inserts
    ensures Survivors(es, inserts, deletes + {k}) == RemoveKey(Survivors(es, inserts, deletes), k)
    decreases |es|
  {
    if es != [] {
      var init, e := es[..|es| - 1], es[|es| - 1];
      var r0 := Survivors(init, inserts, deletes);
      SurvivorsDeleteMore(init, inserts, deletes, k);
      if e.key in inserts {
        RemoveKeySnoc(r0, Entry(e.key, inserts[e.key]), k);
      } else if e.key !in deletes {
        RemoveKeySnoc(r0, e, k);
      }
    }
  }

  lemma RemoveKeySnoc(es: seq<Entry>, e: Entry, k: string)
    ensures RemoveKey(es + [e], k) == RemoveKey(es, k) + if e.key == k then [] else [e]
  {
    assert (es + [e])[..|es + [e]| - 1] == es;
  }

  /** Appended entries depend on the upsert map only at the keys `order` lists. */
  lemma {:induction false} AppendedIrrelevant(order: seq<string>, inserts: map<string, Value>, present: set<string>, k: string, x: Value)
    requires k !in order
    ensures Appended(order, inserts[k := x], present) == Appended(order, inserts, present)
    decreases |order|
  {
    if order != [] {
      AppendedIrrelevant(order[..|order| - 1], inserts, present, k, x);
    }
  }

  lemma UpsertConcat(a: seq<Entry>, b: seq<Entry>, k: string, x: Value)
    requires k in KeySet(a)
    ensures Upsert(a + b, k, x) == Upsert(a, k, x) + b
  {
    KeySetMember(a, k);
    var i := IndexOf(a, k).value;
    IndexOfFirst(a + b, k, i);
    assert (a + b)[i := Entry(k, x)] == a[i := Entry(k, x)] + b;
  }

  lemma UpsertFresh(es: seq<Entry>, k: string, x: Value)
    requires k !in KeySet(es)
    ensures Upsert(es, k, x) == es + [Entry(k, x)]
  {
    KeySetMember(es, k);
  }

  lemma {:induction false} RemoveKeyConcat(a: seq<Entry>, b: seq<Entry>, k: string)
    ensures RemoveKey(a + b, k) == RemoveKey(a, k) + RemoveKey(b, k)
    decreases |b|
  {
    if b == [] {
      assert a + b == a;
    } else {
      var init, e := b[..|b| - 1], b[|b| - 1];
      var tail := if e.key == k then [] else [e];
      assert RemoveKey(a + b, k) == RemoveKey(a + init, k) + tail by {
        assert a + b == (a + init) + [e];
        RemoveKeySnoc(a + init, e, k);
      }
      assert RemoveKey(b, k) == RemoveKey(init, k) + tail by {
        assert b == init + [e];
        RemoveKeySnoc(init, e, k);
      }
      RemoveKeyConcat(a, init, k);
      assert (RemoveKey(a, k) + RemoveKey(init, k)) + tail == RemoveKey(a, k) + (RemoveKey(init, k) + tail);
    }
  }

  /**
   * Adding one fresh upsert to a batch is upserting it into the batch's
   * result: in place when the key stays in the map, as a new last entry
   * otherwise.
   */
  lemma RewriteInsertOne(es: seq<Entry>, inserts: map<string, Value>, order: seq<string>, deletes: set<string>, k: string, x: Value)
    requires KeysUnique(es) && Enumerates(order, inserts)
    requires k !in inserts && k !in deletes
    ensures RewrittenIntended(es, inserts[k := x], order + [k], deletes) ==
            Upsert(RewrittenIntended(es, inserts, order, deletes), k, x)
  {
    var present := KeySet(es);
    assert k !in order;
    AppendedIrrelevant(order, inserts, present, k, x);
    assert (order + [k])[..|order|] == order;
    SurvivorsUpdate(es, inserts, deletes, k, x);
    SurvivorsUnique(es, inserts, deletes);
    AppendedUnique(order, inserts, present);
    if k in present {
      InsertKept(es, inserts, order, deletes, k, x);
    } else {
      InsertNew(es, inserts, order, deletes, k, x);
    }
  }

  lemma InsertKept(es: seq<Entry>, inserts: map<string, Value>, order: seq<string>, deletes: set<string>, k: string, x: Value)
    requires KeysUnique(es) && k in KeySet(es) && k !in inserts && k !in deletes && k !in order
    requires Appended(order, inserts[k := x], KeySet(es)) == Appended(order, inserts, KeySet(es))
    requires (order + [k])[..|order|] == order
    requires |Survivors(es, inserts[k := x], deletes)| == |Survivors(es, inserts, deletes)|
    requires forall j :: 0 <= j < |Survivors(es, inserts, deletes)| ==>
      Survivors(es, inserts[k := x], deletes)[j] ==
        if Survivors(es, inserts, deletes)[j].key == k then Entry(k, x) else Survivors(es, inserts, deletes)[j]
    requires KeySet(Survivors(es, inserts, deletes)) == KeySet(es) - (deletes - inserts.Keys)
    requires KeysUnique(Survivors(es, inserts, deletes))
    ensures RewrittenIntended(es, inserts[k := x], order + [k], deletes) ==
            Upsert(RewrittenIntended(es, inserts, order, deletes), k, x)
  {
    var s, s' := Survivors(es, inserts, deletes), Survivors(es, inserts[k := x], deletes);
    var a := Appended(order, inserts, KeySet(es));
    assert Appended(order + [k], inserts[k := x], KeySet(es)) == a;
    assert k in KeySet(s);
    KeySetMember(s, k);
    var i :| 0 <= i < |s| && s[i].key == k;
    UpsertAt(s, i, x);
    assert s' == s[i := Entry(k, x)];
    UpsertConcat(s, a, k, x);
  }

  lemma InsertNew(es: seq<Entry>, inserts: map<string, Value>, order: seq<string>, deletes: set<string>, k: string, x: Value)
    requires k !in KeySet(es) && k !in inserts && k !in order
    requires Appended(order, inserts[k := x], KeySet(es)) == Appended(order, inserts, KeySet(es))
    requires (order + [k])[..|order|] == order
    requires |Survivors(es, inserts[k := x], deletes)| == |Survivors(es, inserts, deletes)|
    requires forall j :: 0 <= j < |Survivors(es, inserts, deletes)| ==>
      Survivors(es, inserts[k := x], deletes)[j] ==
        if Survivors(es, inserts, deletes)[j].key == k then Entry(k, x) else Survivors(es, inserts, deletes)[j]
    requires KeySet(Survivors(es, inserts, deletes)) == KeySet(es) - (deletes - inserts.Keys)
    requires KeySet(Appended(order, inserts, KeySet(es))) == SetOf(order) - KeySet(es)
    ensures RewrittenIntended(es, inserts[k := x], order + [k], deletes) ==
            Upsert(RewrittenIntended(es, inserts, order, deletes), k, x)
  {
    var s, s' := Survivors(es, inserts, deletes), Survivors(es, inserts[k := x], deletes);
    var a := Appended(order, inserts, KeySet(es));
    assert Appended(order + [k], inserts[k := x], KeySet(es)) == a + [Entry(k, x)];
    assert k !in KeySet(s) && k !in KeySet(a);
    KeySetMember(s, k);
    assert s' == s;
    KeySetConcat(s, a);
    UpsertFresh(s + a, k, x);
  }

  lemma KeySetConcat(a: seq<Entry>, b: seq<Entry>)
    ensures KeySet(a + b) == KeySet(a) + KeySet(b)
  {
    forall k | k in KeySet(a + b) ensures k in KeySet(a) + KeySet(b) {
      var e :| e in a + b && e.key == k;
      assert e in a || e in b;
    }
    forall k | k in KeySet(a) + KeySet(b) ensures k in KeySet(a + b) {
      if k in KeySet(a) {
        var e :| e in a && e.key == k;
        assert e in a + b;
      } else {
        var e :| e in b && e.key == k;
        assert e in a + b;
      }
    }
  }

  /** Adding one delete of a key that is not upserted is removing that key from the batch's result. */
  lemma RewriteDeleteOne(es: seq<Entry>, inserts: map<string, Value>, order: seq<string>, deletes: set<string>, k: string)
    requires Enumerates(order, inserts) && k !in inserts
    ensures RewrittenIntended(es, inserts, order, deletes + {k}) ==
            RemoveKey(RewrittenIntended(es, inserts, order, deletes), k)
  {
    var s := Survivors(es, inserts, deletes);
    var a := Appended(order, inserts, KeySet(es));
    SurvivorsDeleteMore(es, inserts, deletes, k);
    RemoveKeyConcat(s, a, k);
    AppendedUnique(order, inserts, KeySet(es));
    assert k !in SetOf(order);
    RemoveKeyKeys(a, k);
  }
}
