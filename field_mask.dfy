/**
 * The field mask of a document value: one path per leaf, where an empty map
 * counts as a leaf so that it survives a merge by mask.
 */
module FieldMasks {
  import opened Wrappers
  import opened FieldPaths
  import opened Values

  /** The paths one entry contributes, given the mask of its value. */
  function EntryMask(k: string, x: Value, nested: set<FieldPath>): set<FieldPath> {
    if x.Map? && nested != {} then set q | q in nested :: [k] + q
    else {[k]}
  }

  /** The mask of a value: empty for a leaf, the union of its entries' masks for a map. */
  function MaskOf(v: Value): set<FieldPath>
    decreases v, 1
  {
    if v.Map? then MaskUpTo(v, |v.entries|) else {}
  }

  /** The union of the masks of the first `n` entries of the map `v`. */
  function MaskUpTo(v: Value, n: nat): set<FieldPath>
    requires v.Map? && n <= |v.entries|
    decreases v, 0, n
  {
    if n == 0 then {}
    else
      var e := v.entries[n - 1];
      MaskUpTo(v, n - 1) + EntryMask(e.key, e.value, MaskOf(e.value))
  }

  /** `p` leads to a leaf value or to an empty map. */
  predicate IsMaskLeaf(v: Value, p: FieldPath) {
    match GetPath(v, p)
    case None => false
    case Some(x) => !x.Map? || x.entries == []
  }

  lemma EntryMaskMember(k: string, x: Value, nested: set<FieldPath>, p: FieldPath)
    ensures p in EntryMask(k, x, nested) <==>
      p != [] && p[0] == k && if x.Map? && nested != {} then p[1..] in nested else p[1..] == []
  {
    if x.Map? && nested != {} {
      if p in EntryMask(k, x, nested) {
        var q :| q in nested && p == [k] + q;
        assert p[1..] == q;
      }
      if p != [] && p[0] == k && p[1..] in nested {
        assert p == [k] + p[1..];
      }
    } else if p != [] && p[0] == k && p[1..] == [] {
      assert p == [k];
    }
  }

  lemma {:induction false} MaskUpToMember(v: Value, n: nat, p: FieldPath)
    requires v.Map? && n <= |v.entries|
    ensures p in MaskUpTo(v, n) <==>
      exists i :: 0 <= i < n && p in EntryMask(v.entries[i].key, v.entries[i].value, MaskOf(v.entries[i].value))
  {
    if n > 0 {
      MaskUpToMember(v, n - 1, p);
    }
  }

  /** Each entry contributes at least one path, so only an empty map has an empty mask. */
  lemma MaskEmpty(v: Value)
    requires v.Map?
    ensures MaskOf(v) == {} <==> v.entries == []
  {
    if v.entries != [] {
      var e := v.entries[0];
      var nested := MaskOf(e.value);
      if e.value.Map? && nested != {} {
        var q :| q in nested;
        EntryMaskMember(e.key, e.value, nested, [e.key] + q);
        assert ([e.key] + q)[1..] == q;
        MaskUpToMember(v, |v.entries|, [e.key] + q);
      } else {
        EntryMaskMember(e.key, e.value, nested, [e.key]);
        MaskUpToMember(v, |v.entries|, [e.key]);
      }
    }
  }

  /**
   * In a value with unique keys, the mask holds exactly the non-empty paths
   * that lead to a leaf or to an empty map.
   */
  lemma {:induction false} MaskIsLeaves(v: Value, p: FieldPath)
    requires WellFormed(v)
    ensures p in MaskOf(v) <==> p != [] && IsMaskLeaf(v, p)
    decreases v
  {
    if v.Map? && p != [] {
      var es := v.entries;
      var k := p[0];
      MaskUpToMember(v, |es|, p);
      GetPathCons(v, k, p[1..]);
      assert p == [k] + p[1..];
      LookupAbsent(es, k);
      if p in MaskOf(v) {
        var i :| 0 <= i < |es| && p in EntryMask(es[i].key, es[i].value, MaskOf(es[i].value));
        var x := es[i].value;
        EntryMaskMember(es[i].key, x, MaskOf(x), p);
        LookupAt(es, i);
        if x.Map? && MaskOf(x) != {} {
          MaskIsLeaves(x, p[1..]);
        } else if x.Map? {
          MaskEmpty(x);
        }
      }
      if IsMaskLeaf(v, p) {
        var i := IndexOf(es, k).value;
        var x := es[i].value;
        LookupAt(es, i);
        EntryMaskMember(k, x, MaskOf(x), p);
        if p[1..] == [] {
          if x.Map? {
            MaskEmpty(x);
          }
        } else {
          assert x.Map?;
          MaskIsLeaves(x, p[1..]);
        }
      }
    } else if v.Map? {
      MaskUpToMember(v, |v.entries|, p);
      if p in MaskOf(v) {
        var i :| 0 <= i < |v.entries| && p in EntryMask(v.entries[i].key, v.entries[i].value, MaskOf(v.entries[i].value));
        EntryMaskMember(v.entries[i].key, v.entries[i].value, MaskOf(v.entries[i].value), p);
      }
    }
  }
}
