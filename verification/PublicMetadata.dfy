/**
 Which values may be stored as server-visible metadata (src/validation/public-metadata.ts):
 a recursive walk that carries the set of ancestors and takes each node out again on its way back.
 */
module PublicMetadata {
  import opened Prelude

  const MAX_DEPTH := 6
  const MAX_ENTRIES := 64
  const MAX_KEY_LENGTH := 128

  /** NotJson: undefined, functions, symbols, big integers, NaN and the infinities. */
  datatype Value = Null | Text(text: Text) | Bool(b: bool) | FiniteNumber(n: real) | NotJson | Ref(id: nat)

  datatype Entry = Entry(key: Prelude.Text, value: Value)

  /** Foreign: an object whose prototype is neither Object.prototype nor null. */
  datatype Node = Array(elements: seq<Value>) | Record(entries: seq<Entry>) | Foreign

  type Heap = map<nat, Node>

  function Children(n: Node): seq<Value> {
    match n
    case Array(es) => es
    case Record(es) => seq(|es|, i requires 0 <= i < |es| => es[i].value)
    case Foreign => []
  }

  ghost predicate Closed(h: Heap) {
    forall id <- h, v <- Children(h[id]) | v.Ref? :: v.id in h
  }

  predicate InHeap(h: Heap, v: Value) {
    v.Ref? ==> v.id in h
  }

  predicate IsScalar(v: Value) {
    v.Null? || v.Text? || v.Bool? || v.FiniteNumber?
  }

  predicate GoodKey(key: Prelude.Text) {
    0 < |key| <= MAX_KEY_LENGTH
  }

  /** The node's own limits, apart from what it holds. */
  predicate GoodNode(n: Node) {
    match n
    case Array(es) => |es| <= MAX_ENTRIES
    case Record(es) => |es| <= MAX_ENTRIES && forall e <- es :: GoodKey(e.key)
    case Foreign => false
  }

  // ---------------------------------------------------------------- finite JSON trees

  datatype Json = Leaf(value: Value) | JsonArray(items: seq<Json>) | JsonObject(names: seq<Prelude.Text>, members: seq<Json>)

  /** No chain of nested containers is longer than `levels`. */
  predicate NoDeeperThan(t: Json, levels: int) {
    match t
    case Leaf(_) => true
    case JsonArray(items) => 0 < levels && forall c <- items :: NoDeeperThan(c, levels - 1)
    case JsonObject(_, members) => 0 < levels && forall c <- members :: NoDeeperThan(c, levels - 1)
  }

  /** Every container within the width limit, every key within the length limit. */
  predicate Narrow(t: Json) {
    match t
    case Leaf(_) => true
    case JsonArray(items) => |items| <= MAX_ENTRIES && forall c <- items :: Narrow(c)
    case JsonObject(names, members) =>
      |names| == |members| <= MAX_ENTRIES && (forall k <- names :: GoodKey(k)) && forall c <- members :: Narrow(c)
  }

  /** The tree is what one sees by following every reference from `v`. */
  ghost predicate Unfolds(h: Heap, v: Value, t: Json)
    decreases t
  {
    match t
    case Leaf(x) => IsScalar(v) && x == v
    case JsonArray(items) =>
      && v.Ref? && v.id in h && h[v.id].Array? && |items| == |h[v.id].elements|
      && forall i :: 0 <= i < |items| ==> Unfolds(h, h[v.id].elements[i], items[i])
    case JsonObject(names, members) =>
      && v.Ref? && v.id in h && h[v.id].Record? && |names| == |members| == |h[v.id].entries|
      && (forall i :: 0 <= i < |names| ==> names[i] == h[v.id].entries[i].key)
      && forall i :: 0 <= i < |members| ==> Unfolds(h, h[v.id].entries[i].value, members[i])
  }

  ghost predicate UnfoldsWithin(h: Heap, v: Value, t: Json, levels: int) {
    Unfolds(h, v, t) && Narrow(t) && NoDeeperThan(t, levels)
  }

  /** Levels of containers: depths 0 to MAX_DEPTH. */
  const MAX_LEVELS := MAX_DEPTH + 1

  ghost predicate IsSmallTree(h: Heap, v: Value) {
    exists t :: UnfoldsWithin(h, v, t, MAX_LEVELS)
  }

  // ---------------------------------------------------------------- the bounded walk, without ancestors

  predicate Fits(h: Heap, v: Value, depth: nat)
    decreases MAX_LEVELS - depth
  {
    IsScalar(v) ||
    (v.Ref? && v.id in h && depth <= MAX_DEPTH && GoodNode(h[v.id])
     && forall c {:trigger c in Children(h[v.id])} :: c in Children(h[v.id]) ==> Fits(h, c, depth + 1))
  }

  /** `k` references lead from `v` to `w`. */
  ghost predicate Steps(h: Heap, v: Value, k: nat, w: Value)
    decreases k
  {
    if k == 0 then v == w else v.Ref? && v.id in h && exists c {:trigger c in Children(h[v.id])} :: c in Children(h[v.id]) && Steps(h, c, k - 1, w)
  }

  lemma FitsChild(h: Heap, v: Value, depth: nat, c: Value)
    requires Fits(h, v, depth) && v.Ref? && v.id in h && c in Children(h[v.id])
    ensures Fits(h, c, depth + 1)
  {
  }

  lemma NoStep(h: Heap, v: Value, w: Value)
    requires Steps(h, v, 0, w)
    ensures v == w
  {
  }

  lemma FirstStep(h: Heap, v: Value, k: nat, w: Value) returns (c: Value)
    requires 0 < k && Steps(h, v, k, w)
    ensures v.Ref? && v.id in h && c in Children(h[v.id]) && Steps(h, c, k - 1, w)
  {
    c :| c in Children(h[v.id]) && Steps(h, c, k - 1, w);
  }

  ghost predicate IsChild(h: Heap, v: Value, c: Value) {
    v.Ref? && v.id in h && c in Children(h[v.id])
  }

  ghost predicate Chain(h: Heap, path: seq<Value>) {
    forall i :: 0 <= i < |path| - 1 ==> IsChild(h, path[i], path[i + 1])
  }

  lemma {:induction false} StepsAreChain(h: Heap, v: Value, k: nat, w: Value) returns (path: seq<Value>)
    requires Steps(h, v, k, w)
    ensures |path| == k + 1 && path[0] == v && path[k] == w && Chain(h, path)
    decreases k
  {
    if k == 0 {
      NoStep(h, v, w);
      path := [v];
    } else {
      var c := FirstStep(h, v, k, w);
      var rest := StepsAreChain(h, c, k - 1, w);
      path := [v] + rest;
    }
  }

  lemma {:induction false} ChainFits(h: Heap, path: seq<Value>, depth: nat, i: nat, below: nat)
    requires Chain(h, path) && i < |path| && Fits(h, path[0], depth) && below == depth + i
    ensures Fits(h, path[i], below)
    decreases i
  {
    if i > 0 {
      ChainFits(h, path, depth, i - 1, below - 1);
      assert IsChild(h, path[i - 1], path[i - 1 + 1]);
      FitsChild(h, path[i - 1], below - 1, path[i]);
    }
  }

  lemma FitsGoesDown(h: Heap, v: Value, depth: nat, k: nat, w: Value, below: nat)
    requires Fits(h, v, depth) && Steps(h, v, k, w) && below == depth + k
    ensures Fits(h, w, below)
  {
    var path := StepsAreChain(h, v, k, w);
    ChainFits(h, path, depth, k, below);
  }

  /** What can be reached from itself does not fit, at any depth: a cycle exceeds every bound. */
  lemma {:induction false} CyclesNeverFit(h: Heap, v: Value, depth: nat, k: nat)
    requires 0 < k && Steps(h, v, k, v)
    ensures !Fits(h, v, depth)
    decreases MAX_LEVELS - depth
  {
    if Fits(h, v, depth) {
      FitsGoesDown(h, v, depth, k, v, depth + k);
      CyclesNeverFit(h, v, depth + k, k);
    }
  }

  lemma {:induction false} StepsSnoc(h: Heap, v: Value, k: nat, w: Value, c: Value)
    requires Steps(h, v, k, w) && w.Ref? && w.id in h && c in Children(h[w.id])
    ensures Steps(h, v, k + 1, c)
    decreases k
  {
    if k == 0 {
      assert Steps(h, c, 0, c);
    } else {
      var d :| d in Children(h[v.id]) && Steps(h, d, k - 1, w);
      StepsSnoc(h, d, k - 1, w, c);
    }
  }

  ghost predicate Below(h: Heap, ancestor: nat, v: Value) {
    exists k: nat :: 1 <= k && Steps(h, Ref(ancestor), k, v)
  }

  lemma ChildIsBelow(h: Heap, seen: set<nat>, id: nat, c: Value)
    requires id in h && c in Children(h[id]) && forall a <- seen :: Below(h, a, Ref(id))
    ensures forall a <- seen + {id} :: Below(h, a, c)
  {
    forall a | a in seen + {id}
      ensures Below(h, a, c)
    {
      if a == id {
        assert Steps(h, Ref(id), 0, Ref(id));
        StepsSnoc(h, Ref(id), 0, Ref(id), c);
      } else {
        var k: nat :| 1 <= k && Steps(h, Ref(a), k, Ref(id));
        StepsSnoc(h, Ref(a), k, Ref(id), c);
      }
    }
  }

  // ---------------------------------------------------------------- the code

  class Walker {
    var seen: set<nat>

    constructor ()
      ensures seen == {}
    {
      seen := {};
    }

    /** Answers false where the code throws. */
    method AssertJsonMetadataValue(h: Heap, value: Value, depth: nat) returns (ok: bool)
      requires Closed(h) && InHeap(h, value)
      requires forall a <- seen :: Below(h, a, value)
      modifies this
      ensures ok <==> Fits(h, value, depth)
      ensures ok ==> seen == old(seen)
      decreases MAX_LEVELS - depth
    {
      if IsScalar(value) {
        return true;
      }
      if !value.Ref? || depth > MAX_DEPTH {
        return false;
      }
      var id := value.id;
      if id in seen {
        ghost var k: nat :| 1 <= k && Steps(h, Ref(id), k, value);
        CyclesNeverFit(h, value, depth, k);
        return false;
      }
      seen := seen + {id};
      var node := h[id];
      if node.Foreign? || (node.Array? && |node.elements| > MAX_ENTRIES) || (node.Record? && |node.entries| > MAX_ENTRIES) {
        return false;
      }
      var children := Children(node);
      for i := 0 to |children|
        invariant seen == old(seen) + {id}
        invariant forall j :: 0 <= j < i ==> (node.Record? ==> GoodKey(node.entries[j].key)) && Fits(h, children[j], depth + 1)
      {
        if node.Record? && !GoodKey(node.entries[i].key) {
          assert node.entries[i] in node.entries;
          return false;
        }
        assert children[i] in children;
        ChildIsBelow(h, old(seen), id, children[i]);
        var entryOk := AssertJsonMetadataValue(h, children[i], depth + 1);
        if !entryOk {
          return false;
        }
      }
      seen := seen - {id};
      return true;
    }
  }

  // ---------------------------------------------------------------- what fits is a small finite tree

  function TreeOf(h: Heap, v: Value, depth: nat): (t: Json)
    requires Fits(h, v, depth)
    decreases MAX_LEVELS - depth
  {
    if IsScalar(v) then Leaf(v)
    else
      var cs := Children(h[v.id]);
      var ts := seq(|cs|, i requires 0 <= i < |cs| => assert cs[i] in cs; TreeOf(h, cs[i], depth + 1));
      match h[v.id]
      case Record(es) => JsonObject(seq(|es|, i requires 0 <= i < |es| => es[i].key), ts)
      case _ => JsonArray(ts)
  }

  lemma {:induction false} TreeOfUnfolds(h: Heap, v: Value, depth: nat)
    requires Fits(h, v, depth)
    ensures UnfoldsWithin(h, v, TreeOf(h, v, depth), MAX_LEVELS - depth)
    decreases MAX_LEVELS - depth
  {
    if !IsScalar(v) {
      var cs := Children(h[v.id]);
      forall i | 0 <= i < |cs|
        ensures Fits(h, cs[i], depth + 1) && UnfoldsWithin(h, cs[i], TreeOf(h, cs[i], depth + 1), MAX_LEVELS - (depth + 1))
      {
        assert cs[i] in cs;
        TreeOfUnfolds(h, cs[i], depth + 1);
      }
    }
  }

  lemma {:induction false} UnfoldingFits(h: Heap, v: Value, t: Json, depth: nat)
    requires UnfoldsWithin(h, v, t, MAX_LEVELS - depth)
    ensures Fits(h, v, depth)
    decreases t
  {
    if !t.Leaf? {
      var cs := Children(h[v.id]);
      var ts := if t.JsonArray? then t.items else t.members;
      forall c | c in cs
        ensures Fits(h, c, depth + 1)
      {
        var i :| 0 <= i < |cs| && cs[i] == c;
        assert ts[i] in ts;
        UnfoldingFits(h, c, ts[i], depth + 1);
      }
      if t.JsonObject? {
        forall e | e in h[v.id].entries
          ensures GoodKey(e.key)
        {
          var i :| 0 <= i < |h[v.id].entries| && h[v.id].entries[i] == e;
          assert t.names[i] in t.names;
        }
      }
    }
  }

  /**
   The walk accepts exactly the values that unfold to a finite plain JSON tree of at most seven
   levels of containers, with at most 64 entries each and keys of 1 to 128 units. Shared nodes
   are fine; a cycle never is.
   */
  lemma FitsExactlySmallTrees(h: Heap, v: Value)
    ensures Fits(h, v, 0) <==> IsSmallTree(h, v)
  {
    if Fits(h, v, 0) {
      TreeOfUnfolds(h, v, 0);
    }
    if IsSmallTree(h, v) {
      var t :| UnfoldsWithin(h, v, t, MAX_LEVELS);
      UnfoldingFits(h, v, t, 0);
    }
  }

  /** The walk from the top, with no ancestors yet. */
  method AssertJsonMetadata(h: Heap, value: Value) returns (ok: bool)
    requires Closed(h) && InHeap(h, value)
    ensures ok <==> IsSmallTree(h, value)
  {
    var walker := new Walker();
    ok := walker.AssertJsonMetadataValue(h, value, 0);
    FitsExactlySmallTrees(h, value);
  }

  /** Anything from which a cycle can be reached is refused. */
  lemma CyclesAreRefused(h: Heap, v: Value, depth: nat, k: nat, w: Value, n: nat)
    requires Steps(h, v, k, w) && 0 < n && Steps(h, w, n, w)
    ensures !Fits(h, v, depth)
  {
    if Fits(h, v, depth) {
      FitsGoesDown(h, v, depth, k, w, depth + k);
      CyclesNeverFit(h, w, depth + k, n);
    }
  }

  // ---------------------------------------------------------------- the limits

  /** At most seven levels of containers, 64 entries in each, and keys of 1 to 128 units; no foreign object, and only JSON for leaves. */
  lemma LimitsAre(h: Heap, v: Value, n: Node)
    ensures IsSmallTree(h, v) <==> exists t :: UnfoldsWithin(h, v, t, 7)
    ensures IsScalar(v) <==> !v.NotJson? && !v.Ref?
    ensures GoodNode(n) <==>
            && !n.Foreign? && |Children(n)| <= 64
            && (n.Record? ==> forall i :: 0 <= i < |n.entries| ==> 1 <= |n.entries[i].key| <= 128)
  {
  }
}
