/**
 * The driver catalog: the zero-terminated driver vector that
 * HPDriversGetFromDirectory builds from the bundles of the drop directory,
 * and the sentinel-bounded walk that every consumer of the vector performs.
 */
module Catalog {
  import opened HotplugTypes

  /** Substituted when a bundle has no ifdFriendlyName key. */
  const UnnamedDevice: string := "unnamed device"

  /** A bundle with both identity keys; the loader stops at the first bundle without them. */
  predicate Complete(b: Bundle)
  {
    b.vendorId.Some? && b.productId.Some?
  }

  /**
   * The slot the loader leaves for bundle `b`: the library path is always
   * set, the vendor id only when present, the product id and the name only
   * when both identity keys are present.
   */
  function Entry(b: Bundle): Driver
  {
    if b.vendorId.None? then
      ZeroDriver.(libPath := Some(b.path))
    else if b.productId.None? then
      Driver(b.vendorId.value, 0, None, Some(b.path))
    else
      Driver(b.vendorId.value, b.productId.value,
             Some(if b.friendlyName.Some? then b.friendlyName.value else UnnamedDevice),
             Some(b.path))
  }

  /** The index of the first bundle lacking an identity key, or |bs| when there is none. */
  function Cut(bs: seq<Bundle>): (c: nat)
    ensures c <= |bs|
    ensures forall k :: 0 <= k < c ==> Complete(bs[k])
    ensures c < |bs| ==> !Complete(bs[c])
  {
    if bs == [] then 0
    else if !Complete(bs[0]) then 0
    else 1 + Cut(bs[1..])
  }

  /**
   * The whole vector the loader returns: |bs| + 1 slots, the slots of the
   * bundles up to and including the first incomplete one filled, every later
   * slot (and the extra last one) still as calloc left it.
   */
  function Vector(bs: seq<Bundle>): (v: seq<Driver>)
    ensures |v| == |bs| + 1
    ensures v[|bs|] == ZeroDriver
  {
    seq(|bs| + 1, k requires 0 <= k <= |bs| =>
      if k < |bs| && k <= Cut(bs) then Entry(bs[k]) else ZeroDriver)
  }

  /** A vector with a terminating slot somewhere (the loader always leaves one at the end). */
  predicate Terminated(v: seq<Driver>)
  {
    exists k :: 0 <= k < |v| && v[k].vendorId == 0
  }

  /**
   * The entries a sentinel walk `for (; d->m_vendorId; ++d)` visits: the
   * longest prefix with nonzero vendor ids.
   */
  function Live(v: seq<Driver>): (l: seq<Driver>)
    ensures |l| <= |v| && l == v[..|l|]
    ensures forall k :: 0 <= k < |l| ==> l[k].vendorId != 0
    ensures |l| < |v| ==> v[|l|].vendorId == 0
  {
    if v == [] || v[0].vendorId == 0 then []
    else [v[0]] + Live(v[1..])
  }

  /** In a terminated vector the walk stops at a slot inside the vector. */
  lemma LiveStopsInside(v: seq<Driver>)
    requires Terminated(v)
    ensures |Live(v)| < |v|
  {
    var k :| 0 <= k < |v| && v[k].vendorId == 0;
  }

  /** A zero vendor id anywhere cuts the walk short at or before it. */
  lemma ZeroVendorCuts(v: seq<Driver>, k: nat)
    requires k < |v| && v[k].vendorId == 0
    ensures |Live(v)| <= k
    ensures Live(v) == Live(v[..k])
  {
    LivePrefix(v, k);
  }

  /** The walk only looks at the slots up to its stopping point. */
  lemma {:induction false} LivePrefix(v: seq<Driver>, n: nat)
    requires |Live(v)| <= n <= |v|
    ensures Live(v[..n]) == Live(v)
  {
    if v == [] || v[0].vendorId == 0 {
    } else {
      assert v[..n][0] == v[0];
      assert v[..n][1..] == v[1..][..n - 1];
      LivePrefix(v[1..], n - 1);
    }
  }

  /**
   * Reference definition of the catalog a load yields, bundle by bundle:
   * a bundle without a vendor id, or with vendor id 0, ends the catalog;
   * one without a product id is the last entry, with product id 0 and no
   * name; otherwise the entry carries the bundle's name or the placeholder.
   */
  function LoadedCatalog(bs: seq<Bundle>): seq<Driver>
  {
    if bs == [] then []
    else
      var b := bs[0];
      if b.vendorId.None? || b.vendorId.value == 0 then []
      else if b.productId.None? then [Driver(b.vendorId.value, 0, None, Some(b.path))]
      else [Entry(b)] + LoadedCatalog(bs[1..])
  }

  /** The drivers the sentinel walk sees in the loader's vector are exactly the reference catalog. */
  lemma {:induction false} LiveVectorIsLoadedCatalog(bs: seq<Bundle>)
    ensures Live(Vector(bs)) == LoadedCatalog(bs)
  {
    var v := Vector(bs);
    if bs == [] {
      assert v[0] == ZeroDriver;
    } else {
      var b := bs[0];
      assert v[0] == Entry(b);
      if b.vendorId.None? || b.vendorId.value == 0 {
      } else if b.productId.None? {
        assert Cut(bs) == 0;
        assert v[1].vendorId == 0;
        assert v[1..][0] == v[1];
        assert Live(v) == [v[0]] + Live(v[1..]);
      } else {
        assert Cut(bs) == 1 + Cut(bs[1..]);
        assert v[1..] == Vector(bs[1..]);
        LiveVectorIsLoadedCatalog(bs[1..]);
      }
    }
  }

  /** Every catalog entry has a nonzero vendor id and comes from its bundle's keys and path. */
  lemma {:induction false} LoadedCatalogEntries(bs: seq<Bundle>)
    ensures |LoadedCatalog(bs)| <= |bs|
    ensures forall k :: 0 <= k < |LoadedCatalog(bs)| ==>
      var e := LoadedCatalog(bs)[k];
      && e.vendorId != 0 && bs[k].vendorId == Some(e.vendorId) && e.libPath == Some(bs[k].path)
      && (bs[k].productId.Some? ==>
            (e.productId == bs[k].productId.value &&
             e.friendlyName == Some(if bs[k].friendlyName.Some? then bs[k].friendlyName.value else UnnamedDevice)))
      && (bs[k].productId.None? ==>
            (e.productId == 0 && e.friendlyName == None && k == |LoadedCatalog(bs)| - 1))
  {
    if bs != [] && bs[0].vendorId.Some? && bs[0].vendorId.value != 0 && bs[0].productId.Some? {
      LoadedCatalogEntries(bs[1..]);
    }
  }

  /**
   * How many entries a load yields. Suppose every bundle before `k` is
   * complete with a nonzero vendor id. If there is no bundle `k`, the
   * catalog has one entry per bundle. If bundle `k` has no vendor id, or
   * vendor id 0, the catalog has `k` entries. If bundle `k` has a nonzero
   * vendor id but no product id, it has `k + 1`.
   */
  lemma {:induction false} LoadedCatalogLength(bs: seq<Bundle>, k: nat)
    requires k <= |bs|
    requires forall j :: 0 <= j < k ==> Complete(bs[j]) && bs[j].vendorId.value != 0
    ensures k == |bs| ==> |LoadedCatalog(bs)| == |bs|
    ensures k < |bs| && (bs[k].vendorId.None? || bs[k].vendorId.value == 0) ==> |LoadedCatalog(bs)| == k
    ensures k < |bs| && bs[k].vendorId.Some? && bs[k].vendorId.value != 0 && bs[k].productId.None? ==>
            |LoadedCatalog(bs)| == k + 1
  {
    if k > 0 {
      assert forall j :: 0 <= j < k - 1 ==> bs[1..][j] == bs[j + 1];
      LoadedCatalogLength(bs[1..], k - 1);
      assert LoadedCatalog(bs) == [Entry(bs[0])] + LoadedCatalog(bs[1..]);
    }
  }

  /**
   * A bundle missing ifdVendorID ends the load: when every earlier bundle is
   * complete with a nonzero vendor id, the catalog is exactly the entries of
   * the preceding bundles.
   */
  lemma {:induction false} MissingVendorKeepsPreceding(bs: seq<Bundle>, k: nat)
    requires k < |bs| && bs[k].vendorId.None?
    requires forall j :: 0 <= j < k ==> Complete(bs[j]) && bs[j].vendorId.value != 0
    ensures LoadedCatalog(bs) == seq(k, j requires 0 <= j < k => Entry(bs[j]))
  {
    if k > 0 {
      MissingVendorKeepsPreceding(bs[1..], k - 1);
      assert LoadedCatalog(bs) == [Entry(bs[0])] + LoadedCatalog(bs[1..]);
    }
  }

  /** A bundle without ifdFriendlyName still loads, named with the placeholder. */
  lemma MissingNameIsUnnamed(b: Bundle)
    requires Complete(b) && b.friendlyName.None?
    ensures Entry(b).friendlyName == Some("unnamed device")
    ensures Entry(b).vendorId == b.vendorId.value && Entry(b).productId == b.productId.value
  {
  }

  /**
   * HPDriversGetFromDirectory. `vectorAllocates` is the outcome of the
   * calloc of |bundles| + 1 slots. `None` is the NULL return.
   */
  method GetFromDirectory(dir: DropDir, vectorAllocates: bool) returns (r: Option<array<Driver>>)
    ensures r.None? <==> dir.Unreadable? || !vectorAllocates
    ensures r.Some? ==> r.value[..] == Vector(dir.bundles)
  {
    if dir.Unreadable? {
      return None;
    }
    var bs := dir.bundles;
    if !vectorAllocates {
      return None;
    }
    var v := new Driver[|bs| + 1](_ => ZeroDriver);
    for i := 0 to |bs|
      invariant forall k :: 0 <= k < i ==> Complete(bs[k])
      invariant forall k :: 0 <= k < i ==> v[k] == Entry(bs[k])
      invariant forall k :: i <= k < v.Length ==> v[k] == ZeroDriver
    {
      var b := bs[i];
      var slot := ZeroDriver.(libPath := Some(b.path));
      if b.vendorId.None? {
        v[i] := slot;
        VectorAt(bs, i, v[..]);
        return Some(v);
      }
      slot := slot.(vendorId := b.vendorId.value);
      if b.productId.None? {
        v[i] := slot;
        VectorAt(bs, i, v[..]);
        return Some(v);
      }
      slot := slot.(productId := b.productId.value);
      if b.friendlyName.None? {
        slot := slot.(friendlyName := Some(UnnamedDevice));
      } else {
        slot := slot.(friendlyName := Some(b.friendlyName.value));
      }
      v[i] := slot;
    }
    VectorAt(bs, |bs|, v[..]);
    return Some(v);
  }

  /**
   * A vector whose slots before `i` hold complete entries, whose slot `i`
   * holds the entry of an incomplete bundle (or is the last slot), and
   * whose later slots are zero, is the loader's vector.
   */
  lemma VectorAt(bs: seq<Bundle>, i: nat, v: seq<Driver>)
    requires i <= |bs| && |v| == |bs| + 1
    requires forall k :: 0 <= k < i ==> Complete(bs[k]) && v[k] == Entry(bs[k])
    requires i < |bs| ==> !Complete(bs[i]) && v[i] == Entry(bs[i])
    requires forall k :: i < k < |v| ==> v[k] == ZeroDriver
    requires i == |bs| ==> v[i] == ZeroDriver
    ensures v == Vector(bs)
  {
    CutAt(bs, i);
  }

  /** Cut is the first incomplete index: complete before `i` and incomplete (or the end) at `i`. */
  lemma CutAt(bs: seq<Bundle>, i: nat)
    requires i <= |bs|
    requires forall k :: 0 <= k < i ==> Complete(bs[k])
    requires i < |bs| ==> !Complete(bs[i])
    ensures Cut(bs) == i
  {
  }

  /**
   * The walk of HPDriverVectorRelease: the slots it releases, in order,
   * before it stops at the first zero vendor id; nothing for a NULL vector.
   */
  method VectorRelease(vector: Option<array<Driver>>) returns (released: seq<Driver>)
    requires vector.Some? ==> Terminated(vector.value[..])
    ensures vector.None? ==> released == []
    ensures vector.Some? ==> released == Live(vector.value[..])
  {
    released := [];
    if vector.Some? {
      var v := vector.value;
      LiveStopsInside(v[..]);
      var b := 0;
      while v[b].vendorId != 0
        invariant 0 <= b <= |Live(v[..])|
        invariant released == Live(v[..])[..b]
        decreases |Live(v[..])| - b
      {
        released := released + [v[b]];
        b := b + 1;
      }
    }
  }
}
