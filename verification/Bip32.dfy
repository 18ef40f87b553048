/** Key derivation along a path, and the cache of parent nodes kept over it. */
module Bip32 {
  import opened Wrappers
  import opened Arith

  /** curve_info, as far as derivation looks at it. */
  datatype CurveInfo = CurveInfo(name: string, hasParams: bool)

  datatype HDNode = HDNode(depth: uint32, childNum: uint32, chainCode: seq<uint8>, privateKey: seq<uint8>,
                           extension: seq<uint8>, publicKey: seq<uint8>, curve: CurveInfo)

  /** The primitives: public key of a private key, one HMAC-based child step (its retry loop included), and the
      fingerprint hash of a public key. */
  datatype Primitives = Primitives(
    publicKey: (CurveInfo, seq<uint8>, seq<uint8>) -> seq<uint8>,
    child: (CurveInfo, seq<uint8>, seq<uint8>, seq<uint8>, uint32) -> (seq<uint8>, seq<uint8>),
    hash: (CurveInfo, seq<uint8>) -> uint32)

  predicate Filled(key: seq<uint8>) {
    |key| > 0 && key[0] != 0
  }

  ghost predicate ValidPrimitives(p: Primitives) {
    forall c, k, e :: Filled(p.publicKey(c, k, e))
  }

  const NO_KEY: seq<uint8> := seq(33, _ => 0)
  const HARDENED: uint32 := 0x8000_0000

  /** hdnode_fill_public_key: computed once, then kept. */
  function Fill(p: Primitives, n: HDNode): HDNode {
    if Filled(n.publicKey) then n else n.(publicKey := p.publicKey(n.curve, n.privateKey, n.extension))
  }

  /** What enters the child step besides the index. */
  function ChildData(p: Primitives, n: HDNode, i: uint32): seq<uint8> {
    if i >= HARDENED then [0] + n.privateKey else Fill(p, n).publicKey
  }

  /** hdnode_private_ckd: fails for a public derivation on a curve without parameters. */
  function Child(p: Primitives, n: HDNode, i: uint32): Option<HDNode> {
    if i < HARDENED && !n.curve.hasParams then None
    else
      var (key, chain) := p.child(n.curve, n.privateKey, n.chainCode, ChildData(p, n, i), i);
      Some(HDNode((n.depth + 1) % 0x1_0000_0000, i, chain, key, n.extension, NO_KEY, n.curve))
  }

  /** Below 2^31 the data is a function of the public key and determines it; from 2^31 on it is one of the private key
      alone. Data of the two kinds never coincide. */
  lemma ChildDataExact(p: Primitives, n: HDNode, i: uint32, n': HDNode, i': uint32)
    requires ValidPrimitives(p)
    ensures ChildData(p, n, i) == ChildData(p, n', i') <==>
      if i < 0x8000_0000 && i' < 0x8000_0000 then Fill(p, n).publicKey == Fill(p, n').publicKey
      else i >= 0x8000_0000 && i' >= 0x8000_0000 && n.privateKey == n'.privateKey
  {
    assert ([0] + n.privateKey)[1..] == n.privateKey && ([0] + n'.privateKey)[1..] == n'.privateKey;
    assert Filled(Fill(p, n).publicKey) && Filled(Fill(p, n').publicKey);
  }

  /** The plain derivation along a path. */
  function Derive(p: Primitives, n: HDNode, path: seq<uint32>): Option<HDNode> {
    if |path| == 0 then Some(n)
    else
      match Derive(p, n, path[..|path| - 1])
      case None => None
      case Some(parent) => Child(p, parent, path[|path| - 1])
  }

  /** Filling in the public key beforehand does not change a child. */
  lemma FillThenChild(p: Primitives, n: HDNode, i: uint32)
    requires ValidPrimitives(p)
    ensures Child(p, Fill(p, n), i) == Child(p, n, i)
  {}

  /** Derivation never changes the curve. */
  lemma {:induction false} DeriveCurve(p: Primitives, n: HDNode, path: seq<uint32>)
    ensures Derive(p, n, path).Some? ==> Derive(p, n, path).value.curve == n.curve
  {
    if |path| > 0 {
      DeriveCurve(p, n, path[..|path| - 1]);
    }
  }

  lemma OneDeeper(d: nat)
    ensures (d % 0x1_0000_0000 + 1) % 0x1_0000_0000 == (d + 1) % 0x1_0000_0000
  {}

  /** A derived node counts the steps, remembers the last index, and starts without a public key. */
  lemma {:induction false} DeriveShape(p: Primitives, n: HDNode, path: seq<uint32>)
    requires Derive(p, n, path).Some? && |path| > 0
    ensures var d := Derive(p, n, path).value;
      && d.depth == (n.depth + |path|) % 0x1_0000_0000 && d.childNum == path[|path| - 1]
      && !Filled(d.publicKey) && d.extension == n.extension && d.curve == n.curve
  {
    var k := |path| - 1;
    if k == 0 {
      assert path[..0] == [];
    } else {
      DeriveShape(p, n, path[..k]);
      OneDeeper(n.depth + k);
    }
  }

  /** A failing step makes the whole path fail. */
  lemma {:induction false} FailsForGood(p: Primitives, n: HDNode, path: seq<uint32>, k: nat)
    requires k <= |path| && Derive(p, n, path[..k]).None?
    ensures Derive(p, n, path).None?
    decreases |path| - k
  {
    if k == |path| {
      assert path[..k] == path;
    } else {
      assert path[..k + 1][..k] == path[..k];
      FailsForGood(p, n, path, k + 1);
    }
  }

  // ---- the cache -------------------------------------------------------------------------

  const CACHE_SIZE: nat := 10
  const MAX_DEPTH: nat := 8

  /** One cache slot: the path below the root, and the node found there. */
  datatype Slot = Empty | Slot(path: seq<uint32>, node: HDNode)

  /** A node passed by reference. */
  class NodeRef {
    var node: HDNode

    constructor (node: HDNode)
      ensures this.node == node
    {
      this.node := node;
    }
  }

  class Cache {
    var root: Option<HDNode>
    var next: nat
    const slots: array<Slot>

    /** Every occupied slot holds the node that the plain derivation from the root gives. */
    ghost predicate Valid(p: Primitives)
      reads this, slots
    {
      && slots.Length == CACHE_SIZE && next < CACHE_SIZE
      && forall j :: 0 <= j < CACHE_SIZE ==> SlotValid(p, slots[j])
    }

    ghost predicate SlotValid(p: Primitives, s: Slot)
      reads this
    {
      s.Slot? ==> root.Some? && 0 < |s.path| <= MAX_DEPTH && Derive(p, root.value, s.path) == Some(s.node)
    }

    constructor (p: Primitives)
      ensures Valid(p) && root == None && fresh(slots)
    {
      root, next := None, 0;
      slots := new Slot[CACHE_SIZE](_ => Empty);
    }

    /** A new root empties the cache. */
    method Reset(p: Primitives, node: HDNode)
      requires slots.Length == CACHE_SIZE
      modifies this, slots
      ensures Valid(p) && root == Some(node)
    {
      next := 0;
      var j := 0;
      while j < CACHE_SIZE
        invariant 0 <= j <= CACHE_SIZE && next == 0 && forall m :: 0 <= m < j ==> slots[m] == Empty
      {
        slots[j] := Empty;
        j := j + 1;
      }
      root := Some(node);
    }

    /** Searches for the parent of a path below the current root. */
    method Find(p: Primitives, path: seq<uint32>, curve: CurveInfo) returns (found: Option<HDNode>)
      requires Valid(p) && root.Some?
      ensures found.Some? ==> Derive(p, root.value, path) == found
    {
      var j := 0;
      while j < CACHE_SIZE
        invariant 0 <= j <= CACHE_SIZE
      {
        assert SlotValid(p, slots[j]);
        if slots[j].Slot? && slots[j].path == path && slots[j].node.curve == curve {
          return Some(slots[j].node);
        }
        j := j + 1;
      }
      return None;
    }

    /** Overwrites the oldest slot. */
    method Save(p: Primitives, path: seq<uint32>, node: HDNode)
      requires Valid(p) && root.Some? && 0 < |path| <= MAX_DEPTH && Derive(p, root.value, path) == Some(node)
      modifies this`next, slots
      ensures Valid(p)
    {
      slots[next] := Slot(path, node);
      next := (next + 1) % CACHE_SIZE;
    }

    /** hdnode_private_ckd_cached: whatever the cache holds, the outcome is that of the plain derivation, the
        fingerprint is the parent's, and the cache stays consistent. */
    method PrivateCkdCached(p: Primitives, inout: NodeRef, path: seq<uint32>, wantFingerprint: bool)
        returns (ok: bool, fingerprint: Option<uint32>)
      requires ValidPrimitives(p) && Valid(p) && |path| <= MAX_DEPTH + 1
      modifies this, slots, inout
      ensures Valid(p)
      ensures ok <==> Derive(p, old(inout.node), path).Some?
      ensures ok ==> inout.node == Derive(p, old(inout.node), path).value
      ensures fingerprint ==
        if !wantFingerprint || |path| == 0 then None else ParentFingerprint(p, old(inout.node), path)
    {
      fingerprint := None;
      if |path| == 0 { return true, None; }
      ghost var start := inout.node;
      var n := |path|;
      if n == 1 {
        assert path[..0] == [];
        fingerprint := TakeFingerprint(p, inout, wantFingerprint);
        FillThenChild(p, start, path[0]);
        ok := PrivateCkd(p, inout, path[0]);
        return;
      }
      var found := None;
      if root != Some(inout.node) {
        Reset(p, inout.node);
      } else {
        found := Find(p, path[..n - 1], inout.node.curve);
      }
      if found.Some? {
        inout.node := found.value;
      } else {
        ok := DerivePrefix(p, inout, path);
        if !ok { return false, None; }
        Save(p, path[..n - 1], inout.node);
      }
      ghost var parent := inout.node;
      fingerprint := TakeFingerprint(p, inout, wantFingerprint);
      FillThenChild(p, parent, path[n - 1]);
      ok := PrivateCkd(p, inout, path[n - 1]);
    }
  }

  /** The fingerprint of the last node before the end of the path, if derivation gets there. */
  function ParentFingerprint(p: Primitives, n: HDNode, path: seq<uint32>): Option<uint32>
    requires |path| > 0
  {
    match Derive(p, n, path[..|path| - 1])
    case None => None
    case Some(parent) => Some(p.hash(parent.curve, Fill(p, parent).publicKey))
  }

  /** The private derivation step in place; a failed step leaves the node alone. */
  method PrivateCkd(p: Primitives, inout: NodeRef, i: uint32) returns (ok: bool)
    modifies inout
    ensures ok <==> Child(p, old(inout.node), i).Some?
    ensures inout.node == if ok then Child(p, old(inout.node), i).value else old(inout.node)
  {
    if i < 0x8000_0000 && !inout.node.curve.hasParams { return false; }
    var data;
    if i >= 0x8000_0000 {
      data := [0] + inout.node.privateKey;
    } else {
      inout.node := Fill(p, inout.node);
      data := inout.node.publicKey;
    }
    var (key, chain) := p.child(inout.node.curve, inout.node.privateKey, inout.node.chainCode, data, i);
    inout.node := inout.node.(privateKey := key);
    inout.node := inout.node.(chainCode := chain);
    inout.node := inout.node.(depth := (inout.node.depth + 1) % 0x1_0000_0000);
    inout.node := inout.node.(childNum := i);
    inout.node := inout.node.(publicKey := NO_KEY);
    return true;
  }

  /** hdnode_fingerprint, when asked for; it fills in the public key. */
  method TakeFingerprint(p: Primitives, inout: NodeRef, want: bool) returns (fingerprint: Option<uint32>)
    modifies inout
    ensures inout.node == if want then Fill(p, old(inout.node)) else old(inout.node)
    ensures fingerprint ==
      if want then Some(p.hash(old(inout.node).curve, Fill(p, old(inout.node)).publicKey)) else None
  {
    if !want { return None; }
    inout.node := Fill(p, inout.node);
    return Some(p.hash(inout.node.curve, inout.node.publicKey));
  }

  /** The loop over all but the last index. */
  method DerivePrefix(p: Primitives, inout: NodeRef, path: seq<uint32>) returns (ok: bool)
    requires |path| > 0
    modifies inout
    ensures ok ==> Derive(p, old(inout.node), path[..|path| - 1]) == Some(inout.node)
    ensures !ok ==> Derive(p, old(inout.node), path[..|path| - 1]).None?
  {
    ghost var start, prefix := inout.node, path[..|path| - 1];
    var k := 0;
    while k < |path| - 1
      invariant 0 <= k <= |path| - 1 && Derive(p, start, prefix[..k]) == Some(inout.node)
    {
      assert prefix[..k + 1][..k] == prefix[..k] && prefix[k] == path[k];
      ok := PrivateCkd(p, inout, path[k]);
      if !ok {
        FailsForGood(p, start, prefix, k + 1);
        return false;
      }
      k := k + 1;
    }
    assert prefix[..k] == prefix;
    return true;
  }

  // ---- whole histories -------------------------------------------------------------------

  datatype Request = Request(node: HDNode, path: seq<uint32>, wantFingerprint: bool)

  /** Any sequence of requests, over any roots, is answered as if there were no cache. */
  method Serve(p: Primitives, requests: seq<Request>) returns (answers: seq<Option<HDNode>>)
    requires ValidPrimitives(p) && forall k :: 0 <= k < |requests| ==> |requests[k].path| <= MAX_DEPTH + 1
    ensures |answers| == |requests|
    ensures forall k :: 0 <= k < |requests| ==> answers[k] == Derive(p, requests[k].node, requests[k].path)
  {
    var cache := new Cache(p);
    answers := [];
    while |answers| < |requests|
      invariant |answers| <= |requests| && cache.Valid(p) && fresh(cache) && fresh(cache.slots)
      invariant forall k :: 0 <= k < |answers| ==> answers[k] == Derive(p, requests[k].node, requests[k].path)
    {
      var r := requests[|answers|];
      var ref := new NodeRef(r.node);
      var ok, fingerprint := cache.PrivateCkdCached(p, ref, r.path, r.wantFingerprint);
      answers := answers + [if ok then Some(ref.node) else None];
    }
  }
}
