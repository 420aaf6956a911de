/** The Huffman tree and code table of app.py: `HuffmanNode`,
    `build_huffman_tree` and `build_huffman_codes`. */
module HuffmanTree {
  import opened Common

  /** A `HuffmanNode`. A leaf carries a byte value and its frequency; a merged
      node carries `value = None`, the sum of its children's frequencies and
      both children. (A leaf's `left`/`right` are `None`, so the recursion of
      `build_huffman_codes` stops there.) */
  datatype Node = Leaf(value: Byte, freq: nat) | Merged(freq: nat, left: Node, right: Node)
  {
    /** The value of the leftmost leaf. */
    function Leftmost(): Byte {
      match this
      case Leaf(v, _) => v
      case Merged(_, l, _) => l.Leftmost()
    }
  }

  /** A frequency table, as `Counter` builds it: byte value to count. */
  type Frequencies = map<Byte, nat>

  /** `f[b]` of a `Counter`: zero for a key it does not hold. */
  function CountOf(f: Frequencies, b: Byte): nat {
    if b in f then f[b] else 0
  }

  datatype TreeError = EmptyHeap  // the IndexError of `heap[0]` on an empty heap

  // ---------------------------------------------------------------------------
  // Sums over a frequency table

  /** What a sum over a table adds up per entry: the frequency itself, or
      the frequency times the length of the symbol's code. This and `Times`
      have no counterpart in the Python code: they let one linear sum
      definition serve both kinds of total. */
  datatype Weighting = ByFrequency | ByCodeLength(codes: map<Byte, string>)

  function CodeLength(codes: map<Byte, string>, b: Byte): nat {
    if b in codes then |codes[b]| else 0
  }

  function Weigh(w: Weighting, b: Byte, n: nat): nat {
    match w
    case ByFrequency => n
    case ByCodeLength(codes) => Times(n, CodeLength(codes, b))
  }

  /** `n * len` as repeated addition, which keeps the sums linear. */
  function Times(n: nat, len: nat): (r: nat)
    ensures r == n * len
  {
    if n == 0 then 0 else Times(n - 1, len) + len
  }

  /** The term that entry `b` of the table adds to a sum, or nothing when
      `b` is not in the table. */
  function Term(f: Frequencies, w: Weighting, b: Byte): nat {
    if b in f then Weigh(w, b, f[b]) else 0
  }

  /** The sum of the terms of the bytes `b >= lo` of the table. */
  function SumFrom(f: Frequencies, w: Weighting, lo: nat): nat
    decreases 256 - lo
  {
    if lo >= 256 then 0 else Term(f, w, lo as Byte) + SumFrom(f, w, lo + 1)
  }

  /** The sum of all frequencies of a table. */
  function Total(f: Frequencies): nat {
    SumFrom(f, ByFrequency, 0)
  }

  /** Taking one key out of the table takes its term out of the sum. */
  lemma {:induction false} SumSplit(f: Frequencies, w: Weighting, k: Byte, lo: nat)
    ensures SumFrom(f, w, lo) == SumFrom(f - {k}, w, lo) + (if lo <= k then Term(f, w, k) else 0)
    decreases 256 - lo
  {
    if lo < 256 {
      SumSplit(f, w, k, lo + 1);
    }
  }

  lemma {:induction false} SumEmpty(w: Weighting, lo: nat)
    ensures SumFrom(map[], w, lo) == 0
    decreases 256 - lo
  {
    if lo < 256 {
      SumEmpty(w, lo + 1);
    }
  }

  /** Setting one key of the table to `v` replaces its term in the sum. */
  lemma SumUpdate(f: Frequencies, w: Weighting, k: Byte, v: nat)
    ensures SumFrom(f[k := v], w, 0) + Term(f, w, k) == SumFrom(f, w, 0) + Weigh(w, k, v)
  {
    SumSplit(f, w, k, 0);
    SumSplit(f[k := v], w, k, 0);
    assert f[k := v] - {k} == f - {k};
  }

  /** Taking one entry out of the table takes its frequency out of the total. */
  lemma TotalRemove(f: Frequencies, k: Byte)
    requires k in f
    ensures Total(f) == Total(f - {k}) + f[k]
  {
    SumSplit(f, ByFrequency, k, 0);
  }

  /** Setting one frequency to `v` changes the total by the difference. */
  lemma TotalUpdate(f: Frequencies, k: Byte, v: nat)
    ensures Total(f[k := v]) + CountOf(f, k) == Total(f) + v
  {
    SumUpdate(f, ByFrequency, k, v);
  }

  // ---------------------------------------------------------------------------
  // What a tree and a heap of trees hold

  /** The number of leaves of `t` that hold the byte value `v`. */
  function Occurrences(t: Node, v: Byte): nat {
    match t
    case Leaf(w, _) => if w == v then 1 else 0
    case Merged(_, l, r) => Occurrences(l, v) + Occurrences(r, v)
  }

  /** The number of merged nodes, one per iteration of the merge loop. */
  function MergeCount(t: Node): nat {
    match t
    case Leaf(_, _) => 0
    case Merged(_, l, r) => 1 + MergeCount(l) + MergeCount(r)
  }

  /** Every leaf holds a symbol of the table with its frequency, and every
      merged node's frequency is the sum of its children's. */
  predicate WellFormed(t: Node, f: Frequencies) {
    match t
    case Leaf(v, n) => v in f && n == f[v]
    case Merged(n, l, r) => n == l.freq + r.freq && WellFormed(l, f) && WellFormed(r, f)
  }

  /** The leaves hold exactly the keys of the table, each key at one leaf. */
  ghost predicate LeavesAreKeys(t: Node, f: Frequencies) {
    forall v :: Occurrences(t, v) == (if v in f then 1 else 0)
  }

  function Weight(h: seq<Node>): nat {
    if h == [] then 0 else h[0].freq + Weight(h[1..])
  }

  function HeapOccurrences(h: seq<Node>, v: Byte): nat {
    if h == [] then 0 else Occurrences(h[0], v) + HeapOccurrences(h[1..], v)
  }

  function HeapMerges(h: seq<Node>): nat {
    if h == [] then 0 else MergeCount(h[0]) + HeapMerges(h[1..])
  }

  /** Weight, leaf counts and merge count of a heap add up over its parts. */
  lemma {:induction false} HeapConcat(a: seq<Node>, b: seq<Node>)
    ensures Weight(a + b) == Weight(a) + Weight(b)
    ensures HeapMerges(a + b) == HeapMerges(a) + HeapMerges(b)
    ensures forall v :: HeapOccurrences(a + b, v) == HeapOccurrences(a, v) + HeapOccurrences(b, v)
  {
    if a == [] {
      assert a + b == b;
    } else {
      HeapConcat(a[1..], b);
      assert (a + b)[0] == a[0] && (a + b)[1..] == a[1..] + b;
    }
  }

  lemma Singleton(t: Node)
    ensures Weight([t]) == t.freq
    ensures HeapMerges([t]) == MergeCount(t)
    ensures forall v :: HeapOccurrences([t], v) == Occurrences(t, v)
  {
    assert [t][1..] == [];
  }

  /** Removing element `i` of a heap. */
  lemma HeapRemove(h: seq<Node>, i: nat)
    requires i < |h|
    ensures Weight(h) == Weight(h[..i] + h[i + 1..]) + h[i].freq
    ensures HeapMerges(h) == HeapMerges(h[..i] + h[i + 1..]) + MergeCount(h[i])
    ensures forall v :: HeapOccurrences(h, v) == HeapOccurrences(h[..i] + h[i + 1..], v) + Occurrences(h[i], v)
  {
    var tail := [h[i]] + h[i + 1..];
    assert h == h[..i] + tail;
    HeapConcat(h[..i], tail);
    HeapConcat([h[i]], h[i + 1..]);
    Singleton(h[i]);
    HeapConcat(h[..i], h[i + 1..]);
  }

  // ---------------------------------------------------------------------------
  // The heap operations and the tree builder

  /** `heapq.heappop`: removes and returns an element of least frequency
      (`__lt__` compares `freq` only, so which of several equal elements is
      returned is left open). */
  method PopMin(heap: seq<Node>) returns (x: Node, rest: seq<Node>)
    requires |heap| > 0
    ensures exists i :: 0 <= i < |heap| && x == heap[i] && rest == heap[..i] + heap[i + 1..]
    ensures forall t :: t in heap ==> x.freq <= t.freq
  {
    var m := 0;
    for j := 1 to |heap|
      invariant 0 <= m < |heap|
      invariant forall k :: 0 <= k < j ==> heap[m].freq <= heap[k].freq
    {
      if heap[j].freq < heap[m].freq {
        m := j;
      }
    }
    x, rest := heap[m], heap[..m] + heap[m + 1..];
  }

  /** What the heap holds between merges: all of the table's weight, each
      of its keys at exactly one leaf, well-formed trees, and one fewer
      element per merge done so far. */
  ghost predicate HeapHolds(heap: seq<Node>, freqs: Frequencies) {
    Weight(heap) == Total(freqs) &&
    (forall v :: HeapOccurrences(heap, v) == (if v in freqs then 1 else 0)) &&
    (forall t | t in heap :: WellFormed(t, freqs)) &&
    |heap| + HeapMerges(heap) == |freqs|
  }

  /** While the initial heap is filled: the leaves so far and the entries
      still to add make up the table. */
  ghost predicate FillHolds(heap: seq<Node>, remaining: Frequencies, freqs: Frequencies) {
    remaining.Keys <= freqs.Keys &&
    (forall k | k in remaining :: remaining[k] == freqs[k]) &&
    Weight(heap) + Total(remaining) == Total(freqs) &&
    (forall v :: HeapOccurrences(heap, v) + (if v in remaining then 1 else 0) == (if v in freqs then 1 else 0)) &&
    (forall t | t in heap :: t.Leaf? && WellFormed(t, freqs)) &&
    HeapMerges(heap) == 0 &&
    |heap| + |remaining| == |freqs|
  }

  /** Moving one entry from the table to the heap keeps `FillHolds`. */
  lemma FillStep(heap: seq<Node>, remaining: Frequencies, freqs: Frequencies, v: Byte)
    requires FillHolds(heap, remaining, freqs) && v in remaining
    ensures FillHolds(heap + [Leaf(v, remaining[v])], remaining - {v}, freqs)
  {
    var leaf := Leaf(v, remaining[v]);
    TotalRemove(remaining, v);
    HeapConcat(heap, [leaf]);
    Singleton(leaf);
    assert (remaining - {v}).Keys == remaining.Keys - {v};
  }

  /** `[HuffmanNode(value, freq) for value, freq in frequencies.items()]`:
      one leaf per table entry, in some order. */
  method InitialHeap(freqs: Frequencies) returns (heap: seq<Node>)
    ensures HeapHolds(heap, freqs)
    ensures |heap| == |freqs|
    ensures forall t | t in heap :: t.Leaf?
  {
    heap := [];
    var remaining := freqs;
    while remaining != map[]
      invariant FillHolds(heap, remaining, freqs)
      decreases |remaining|
    {
      var v :| v in remaining;
      FillStep(heap, remaining, freqs, v);
      heap := heap + [Leaf(v, remaining[v])];
      remaining := remaining - {v};
    }
    SumEmpty(ByFrequency, 0);
  }

  /** Popping two elements and pushing their merge keeps `HeapHolds`. */
  lemma MergeStep(heap: seq<Node>, freqs: Frequencies, i: nat, rest: seq<Node>, j: nat, rest': seq<Node>, next: seq<Node>)
    requires HeapHolds(heap, freqs)
    requires i < |heap| && rest == heap[..i] + heap[i + 1..]
    requires j < |rest| && rest' == rest[..j] + rest[j + 1..]
    requires next == rest' + [Merged(heap[i].freq + rest[j].freq, heap[i], rest[j])]
    ensures HeapHolds(next, freqs)
  {
    MergeTotals(heap, i, rest, j, rest');
    MergeWellFormed(heap, freqs, i, rest, j, rest');
  }

  lemma MergeTotals(heap: seq<Node>, i: nat, rest: seq<Node>, j: nat, rest': seq<Node>)
    requires i < |heap| && rest == heap[..i] + heap[i + 1..]
    requires j < |rest| && rest' == rest[..j] + rest[j + 1..]
    ensures var next := rest' + [Merged(heap[i].freq + rest[j].freq, heap[i], rest[j])];
      Weight(next) == Weight(heap) &&
      (forall v :: HeapOccurrences(next, v) == HeapOccurrences(heap, v)) &&
      |next| + HeapMerges(next) == |heap| + HeapMerges(heap)
  {
    var merged := Merged(heap[i].freq + rest[j].freq, heap[i], rest[j]);
    HeapRemove(heap, i);
    HeapRemove(rest, j);
    HeapConcat(rest', [merged]);
    Singleton(merged);
  }

  lemma MergeWellFormed(heap: seq<Node>, freqs: Frequencies, i: nat, rest: seq<Node>, j: nat, rest': seq<Node>)
    requires forall t | t in heap :: WellFormed(t, freqs)
    requires i < |heap| && rest == heap[..i] + heap[i + 1..]
    requires j < |rest| && rest' == rest[..j] + rest[j + 1..]
    ensures forall t | t in rest' + [Merged(heap[i].freq + rest[j].freq, heap[i], rest[j])] :: WellFormed(t, freqs)
  {
    assert forall t | t in rest :: t in heap;
    assert forall t | t in rest' :: t in rest;
  }

  /** `build_huffman_tree(frequencies)`: while the heap has two or more
      nodes, pop two least nodes and push their merge; then return
      `heap[0]`, which fails on an empty table. */
  method BuildHuffmanTree(freqs: Frequencies) returns (r: Result<Node, TreeError>)
    ensures r.Err? <==> freqs == map[]
    ensures r.Ok? ==> r.value.freq == Total(freqs)
    ensures r.Ok? ==> LeavesAreKeys(r.value, freqs)
    ensures r.Ok? ==> WellFormed(r.value, freqs)
    ensures r.Ok? ==> MergeCount(r.value) == |freqs| - 1
  {
    var heap := InitialHeap(freqs);
    while |heap| > 1
      invariant HeapHolds(heap, freqs)
      invariant |heap| == 0 <==> freqs == map[]
      decreases |heap|
    {
      var left, rest := PopMin(heap);
      var right, rest' := PopMin(rest);
      ghost var i :| 0 <= i < |heap| && left == heap[i] && rest == heap[..i] + heap[i + 1..];
      ghost var j :| 0 <= j < |rest| && right == rest[j] && rest' == rest[..j] + rest[j + 1..];
      var next := rest' + [Merged(left.freq + right.freq, left, right)];
      MergeStep(heap, freqs, i, rest, j, rest', next);
      heap := next;
    }
    if |heap| == 0 {
      return Err(EmptyHeap);
    }
    LastTree(heap, freqs);
    return Ok(heap[0]);
  }

  /** Once one tree is left, it holds the whole table. */
  lemma LastTree(heap: seq<Node>, freqs: Frequencies)
    requires HeapHolds(heap, freqs) && |heap| == 1
    ensures heap[0].freq == Total(freqs)
    ensures LeavesAreKeys(heap[0], freqs)
    ensures WellFormed(heap[0], freqs)
    ensures MergeCount(heap[0]) == |freqs| - 1
  {
    assert heap == [heap[0]];
    Singleton(heap[0]);
  }

  // ---------------------------------------------------------------------------
  // Code table

  /** The mapping that `build_huffman_codes(node, code)` adds: every leaf's
      value gets `code` followed by its path from `node`, a later leaf
      overwriting an earlier one of the same value. Every code starts with
      `code`, and below a merged node it is longer. */
  function Codes(t: Node, code: string): (codes: map<Byte, string>)
    ensures forall v | v in codes :: |code| <= |codes[v]| && codes[v][..|code|] == code
    ensures t.Merged? ==> forall v | v in codes :: |code| < |codes[v]|
  {
    match t
    case Leaf(v, _) => map[v := code]
    case Merged(_, l, r) => Codes(l, code + "0") + Codes(r, code + "1")
  }

  /** `build_huffman_codes(node, code, mapping)`: fills the shared `mapping`
      while walking the tree, left child first. */
  method BuildCodes(node: Node, code: string, mapping: map<Byte, string>) returns (result: map<Byte, string>)
    ensures result == mapping + Codes(node, code)
  {
    result := mapping;
    match node {
      case Leaf(v, _) =>
        result := result[v := code];
      case Merged(_, l, r) =>
        result := BuildCodes(l, code + "0", result);
        result := BuildCodes(r, code + "1", result);
    }
  }

  /** `build_huffman_codes(tree)` at the top level: empty code, fresh mapping. */
  method BuildHuffmanCodes(tree: Node) returns (mapping: map<Byte, string>)
    ensures mapping == Codes(tree, "")
  {
    mapping := BuildCodes(tree, "", map[]);
  }

  /** `path` leads from the root of `t` to a leaf holding `v`, '0' going to
      the left child and '1' to the right one. */
  predicate IsPath(t: Node, path: string, v: Byte) {
    match t
    case Leaf(w, _) => path == [] && w == v
    case Merged(_, l, r) =>
      |path| > 0 &&
      ((path[0] == '0' && IsPath(l, path[1..], v)) || (path[0] == '1' && IsPath(r, path[1..], v)))
  }

  /** A string of '0' and '1' characters, as the code strings are. */
  predicate IsBits(s: string) {
    forall i | 0 <= i < |s| :: s[i] == '0' || s[i] == '1'
  }

  lemma {:induction false} PathIsBits(t: Node, path: string, v: Byte)
    requires IsPath(t, path, v)
    ensures IsBits(path)
  {
    match t
    case Leaf(_, _) =>
    case Merged(_, l, r) =>
      if path[0] == '0' && IsPath(l, path[1..], v) {
        PathIsBits(l, path[1..], v);
      } else {
        PathIsBits(r, path[1..], v);
      }
      assert forall i | 1 <= i < |path| :: path[i] == path[1..][i - 1];
  }

  /** No leaf symbol occurs twice. */
  ghost predicate DistinctSymbols(t: Node) {
    forall v :: Occurrences(t, v) <= 1
  }

  predicate IsPrefix(p: string, q: string) {
    |p| <= |q| && q[..|p|] == p
  }

  /** No code of the table is a prefix of another symbol's code. */
  predicate PrefixFree(codes: map<Byte, string>) {
    forall a, b | a in codes && b in codes && a != b :: !IsPrefix(codes[a], codes[b])
  }

  // ---------------------------------------------------------------------------
  // Properties of the code table

  lemma {:induction false} PathReachesSymbol(t: Node, path: string, v: Byte)
    requires IsPath(t, path, v)
    ensures Occurrences(t, v) > 0
  {
    match t
    case Leaf(_, _) =>
    case Merged(_, l, r) =>
      if path[0] == '0' && IsPath(l, path[1..], v) {
        PathReachesSymbol(l, path[1..], v);
      } else {
        PathReachesSymbol(r, path[1..], v);
      }
  }

  /** The table has a code for exactly the leaf symbols. */
  lemma {:induction false} CodesDomain(t: Node, code: string)
    ensures forall v :: v in Codes(t, code) <==> Occurrences(t, v) > 0
  {
    match t
    case Leaf(_, _) =>
    case Merged(_, l, r) =>
      CodesDomain(l, code + "0");
      CodesDomain(r, code + "1");
  }

  /** Each code is `code` followed by a root-to-leaf path to its symbol. */
  lemma {:induction false} CodeIsPath(t: Node, code: string, v: Byte)
    requires v in Codes(t, code)
    ensures |code| <= |Codes(t, code)[v]| && Codes(t, code)[v][..|code|] == code
    ensures IsPath(t, Codes(t, code)[v][|code|..], v)
  {
    match t
    case Leaf(_, _) =>
    case Merged(_, l, r) =>
      var s := Codes(t, code)[v];
      var c := if v in Codes(r, code + "1") then "1" else "0";
      var child := if v in Codes(r, code + "1") then r else l;
      assert s == Codes(child, code + c)[v];
      CodeIsPath(child, code + c, v);
      assert s[..|code|] == s[..|code| + 1][..|code|];
      assert s[|code|..][0] == c[0];
      assert s[|code|..][1..] == s[|code| + 1..];
  }

  /** The children of a tree with distinct symbols have distinct symbols
      and share none. */
  lemma DistinctChildren(t: Node)
    requires t.Merged? && DistinctSymbols(t)
    ensures DistinctSymbols(t.left) && DistinctSymbols(t.right)
    ensures forall w :: !(Occurrences(t.left, w) > 0 && Occurrences(t.right, w) > 0)
  {
    forall w ensures Occurrences(t.left, w) + Occurrences(t.right, w) <= 1 {
      assert Occurrences(t, w) <= 1;
    }
  }

  /** With distinct leaf symbols, there is only one path to each symbol. */
  lemma {:induction false} PathUnique(t: Node, p: string, q: string, v: Byte)
    requires DistinctSymbols(t)
    requires IsPath(t, p, v) && IsPath(t, q, v)
    ensures p == q
  {
    match t
    case Leaf(_, _) =>
    case Merged(_, l, r) =>
      DistinctChildren(t);
      var pLeft := p[0] == '0' && IsPath(l, p[1..], v);
      var qLeft := q[0] == '0' && IsPath(l, q[1..], v);
      if pLeft { PathReachesSymbol(l, p[1..], v); } else { PathReachesSymbol(r, p[1..], v); }
      if qLeft { PathReachesSymbol(l, q[1..], v); } else { PathReachesSymbol(r, q[1..], v); }
      assert pLeft == qLeft;
      if pLeft {
        PathUnique(l, p[1..], q[1..], v);
      } else {
        PathUnique(r, p[1..], q[1..], v);
      }
      assert p == [p[0]] + p[1..] && q == [q[0]] + q[1..];
  }

  /** A path to a leaf is never a proper prefix of another path: if one path
      is a prefix of another, they are the same path to the same leaf. */
  lemma {:induction false} PathsPrefixFree(t: Node, p: string, a: Byte, q: string, b: Byte)
    requires IsPath(t, p, a) && IsPath(t, q, b)
    requires IsPrefix(p, q)
    ensures p == q && a == b
  {
    match t
    case Leaf(_, _) =>
    case Merged(_, l, r) =>
      assert q[0] == p[0];
      assert IsPrefix(p[1..], q[1..]);
      if p[0] == '0' {
        PathsPrefixFree(l, p[1..], a, q[1..], b);
      } else {
        PathsPrefixFree(r, p[1..], a, q[1..], b);
      }
      assert p == [p[0]] + p[1..] && q == [q[0]] + q[1..];
  }

  /** Each code of the whole tree is a root-to-leaf path, so a string of bits. */
  lemma RootCodesArePaths(t: Node)
    ensures forall v | v in Codes(t, "") :: IsPath(t, Codes(t, "")[v], v) && IsBits(Codes(t, "")[v])
  {
    var codes := Codes(t, "");
    forall v | v in codes ensures IsPath(t, codes[v], v) && IsBits(codes[v]) {
      CodeIsPath(t, "", v);
      assert codes[v][0..] == codes[v];
      PathIsBits(t, codes[v], v);
    }
  }

  /** The codes of a tree: every leaf symbol has exactly one code, namely its
      root-to-leaf path, and no code is a prefix of another. */
  lemma TreeCodes(t: Node)
    requires DistinctSymbols(t)
    ensures forall v :: v in Codes(t, "") <==> Occurrences(t, v) > 0
    ensures forall v | v in Codes(t, "") :: IsPath(t, Codes(t, "")[v], v)
    ensures forall v, p | IsPath(t, p, v) :: v in Codes(t, "") && p == Codes(t, "")[v]
    ensures PrefixFree(Codes(t, ""))
    ensures forall v | v in Codes(t, "") :: IsBits(Codes(t, "")[v])
  {
    CodesDomain(t, "");
    var codes := Codes(t, "");
    RootCodesArePaths(t);
    forall v, p | IsPath(t, p, v) ensures v in codes && p == codes[v] {
      PathReachesSymbol(t, p, v);
      PathUnique(t, p, codes[v], v);
    }
    forall a, b | a in codes && b in codes && a != b ensures !IsPrefix(codes[a], codes[b]) {
      if IsPrefix(codes[a], codes[b]) {
        PathsPrefixFree(t, codes[a], a, codes[b], b);
      }
    }
  }

  /** A one-symbol table gives a single leaf, whose code is the empty string. */
  lemma SingleSymbolCode(t: Node, f: Frequencies, v: Byte)
    requires f.Keys == {v} && LeavesAreKeys(t, f)
    ensures t.Leaf? && Codes(t, "") == map[v := ""]
  {
    if t.Merged? {
      TwoLeaves(t);
      assert false;
    }
  }

  /** A merged node has a leaf on each side. */
  lemma TwoLeaves(t: Node)
    requires t.Merged?
    ensures Occurrences(t, t.left.Leftmost()) >= 1 && Occurrences(t, t.right.Leftmost()) >= 1
    ensures t.left.Leftmost() == t.right.Leftmost() ==> Occurrences(t, t.left.Leftmost()) >= 2
  {
    HasLeaf(t.left);
    HasLeaf(t.right);
  }

  lemma {:induction false} HasLeaf(t: Node)
    ensures Occurrences(t, t.Leftmost()) >= 1
  {
    match t
    case Leaf(_, _) =>
    case Merged(_, l, r) => HasLeaf(l);
  }

  /** The leaves of a tree built from a table are distinct. */
  lemma KeysAreDistinct(t: Node, f: Frequencies)
    requires LeavesAreKeys(t, f)
    ensures DistinctSymbols(t)
  {
  }
}
