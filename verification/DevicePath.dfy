/** UEFI device paths (uefi/device-path.c): nodes that carry their own length,
    one after the other in memory, up to an end node. */
module DevicePath {
  import opened Words
  import opened Memory

  const END: byte := 0x7F
  const ENTIRE_END: byte := 0xFF
  const EMPTY: seq<byte> := [END, ENTIRE_END, 4, 0]

  /** uefi_devpath_get_node_length */
  function NodeLength(m: Mem, node: nat): nat { m(node + 2) + 256 * m(node + 3) }

  /** uefi_devpath_get_next */
  function Next(m: Mem, node: nat): nat { node + NodeLength(m, node) }

  /** uefi_devpath_is_end */
  predicate IsEnd(m: Mem, node: nat) { m(node) == END && m(node + 1) == ENTIRE_END }

  // ------------------------------------------------------------------ paths

  /** n nodes from p on, none of them an end node, each at least a header long. */
  predicate Chain(m: Mem, p: nat, n: nat)
    decreases n
  {
    n == 0 || (!IsEnd(m, p) && NodeLength(m, p) >= 4 && Chain(m, Next(m, p), n - 1))
  }

  /** Where n nodes lead. */
  function Skip(m: Mem, p: nat, n: nat): (q: nat)
    ensures p <= q
    decreases n
  {
    if n == 0 then p else Skip(m, Next(m, p), n - 1)
  }

  /** A path of n nodes and an end node. */
  predicate Path(m: Mem, p: nat, n: nat) {
    Chain(m, p, n) && IsEnd(m, Skip(m, p, n)) && NodeLength(m, Skip(m, p, n)) >= 4
  }

  /** The bytes of n nodes, node by node. */
  function Nodes(m: Mem, p: nat, n: nat): seq<seq<byte>>
    decreases n
  {
    if n == 0 then [] else [Bytes(m, p, NodeLength(m, p))] + Nodes(m, Next(m, p), n - 1)
  }

  function EndNode(m: Mem, p: nat, n: nat): seq<byte> {
    var e := Skip(m, p, n);
    Bytes(m, e, NodeLength(m, e))
  }

  function TotalLength(nodes: seq<seq<byte>>): nat { if nodes == [] then 0 else |nodes[0]| + TotalLength(nodes[1..]) }

  function PathSize(m: Mem, p: nat, n: nat): nat { TotalLength(Nodes(m, p, n)) + NodeLength(m, Skip(m, p, n)) }

  lemma {:induction false} SkipIsTotal(m: Mem, p: nat, n: nat)
    ensures Skip(m, p, n) == p + TotalLength(Nodes(m, p, n)) && |Nodes(m, p, n)| == n
    decreases n
  {
    if n > 0 {
      SkipIsTotal(m, Next(m, p), n - 1);
      assert Nodes(m, p, n)[1..] == Nodes(m, Next(m, p), n - 1);
    }
  }

  /** uefi_devpath_size: terminates with the sum of the node lengths. */
  method Size(m: Mem, device: nat, ghost n: nat) returns (size: nat)
    requires Path(m, device, n)
    ensures size == PathSize(m, device, n)
  {
    var node := device;
    ghost var left := n;
    while !IsEnd(m, node)
      invariant node >= device && Path(m, node, left) && Skip(m, node, left) == Skip(m, device, n)
      decreases left
    {
      node := Next(m, node);
      left := left - 1;
    }
    size := (node - device) + NodeLength(m, node);
    SkipIsTotal(m, device, n);
  }

  // ------------------------------------------------------------------ copies and splices

  /** Equal stretches of memory have equal parts. */
  lemma Part(m: Mem, p: nat, m': Mem, q: nat, size: nat, off: nat, len: nat)
    requires Bytes(m', q, size) == Bytes(m, p, size) && off + len <= size
    ensures Bytes(m', q + off, len) == Bytes(m, p + off, len)
  {
    var part, part' := Bytes(m, p + off, len), Bytes(m', q + off, len);
    forall i | 0 <= i < len ensures part'[i] == part[i] {
      assert Bytes(m', q, size)[off + i] == Bytes(m, p, size)[off + i];
    }
  }

  lemma HeaderCopied(m: Mem, p: nat, m': Mem, q: nat, size: nat)
    requires size >= 4 && Bytes(m', q, size) == Bytes(m, p, size)
    ensures IsEnd(m', q) == IsEnd(m, p) && NodeLength(m', q) == NodeLength(m, p)
  {
    var b, b' := Bytes(m, p, size), Bytes(m', q, size);
    assert b'[0] == b[0] && b'[1] == b[1] && b'[2] == b[2] && b'[3] == b[3];
  }

  /** A chain that is copied is a chain of the same nodes. */
  lemma {:induction false} Transfer(m: Mem, p: nat, m': Mem, q: nat, n: nat, size: nat)
    requires Chain(m, p, n) && Skip(m, p, n) <= p + size
    requires Bytes(m', q, size) == Bytes(m, p, size)
    ensures Chain(m', q, n) && Skip(m', q, n) - q == Skip(m, p, n) - p && Nodes(m', q, n) == Nodes(m, p, n)
    decreases n
  {
    hide Bytes, IsEnd;
    if n > 0 {
      var len := NodeLength(m, p);
      assert len <= size;
      HeaderCopied(m, p, m', q, size);
      Part(m, p, m', q, size, len, size - len);
      Transfer(m, p + len, m', q + len, n - 1, size - len);
      Part(m, p, m', q, size, 0, len);
    }
  }

  /** A run of n + k nodes is a run of n and, from where that leads, one of k. */
  lemma {:induction false} Split(m: Mem, p: nat, n: nat, k: nat)
    ensures Chain(m, p, n + k) <==> Chain(m, p, n) && Chain(m, Skip(m, p, n), k)
    ensures Nodes(m, p, n + k) == Nodes(m, p, n) + Nodes(m, Skip(m, p, n), k)
    ensures Skip(m, p, n + k) == Skip(m, Skip(m, p, n), k)
    decreases n
  {
    hide Bytes, IsEnd, NodeLength, Chain, Skip, Nodes;
    if n == 0 {
      NoNode(m, p);
    } else {
      OneNode(m, p, n);
      OneNode(m, p, n + k);
      Split(m, Next(m, p), n - 1, k);
    }
  }

  lemma NoNode(m: Mem, p: nat)
    ensures Chain(m, p, 0) && Skip(m, p, 0) == p && Nodes(m, p, 0) == []
  {
  }

  lemma OneNode(m: Mem, p: nat, n: nat)
    requires n > 0
    ensures Chain(m, p, n) == (!IsEnd(m, p) && NodeLength(m, p) >= 4 && Chain(m, Next(m, p), n - 1))
    ensures Skip(m, p, n) == Skip(m, Next(m, p), n - 1)
    ensures Nodes(m, p, n) == [Bytes(m, p, NodeLength(m, p))] + Nodes(m, Next(m, p), n - 1)
  {
  }

  /** The path at `devpath` is the first path's nodes, then the second path. */
  ghost predicate Joined(m: Mem, first: nat, n: nat, second: nat, k: nat, m': Mem, devpath: nat) {
    && Path(m', devpath, n + k)
    && Nodes(m', devpath, n + k) == Nodes(m, first, n) + Nodes(m, second, k)
    && EndNode(m', devpath, n + k) == EndNode(m, second, k)
  }

  /** The two memcpy calls: the second starts four bytes before the first ends. */
  function Splice(m: Mem, first: nat, size: nat, second: nat, size': nat, devpath: nat): Mem
    requires size >= 4
  {
    Copy(Copy(m, devpath, Bytes(m, first, size)), devpath + size - |EMPTY|, Bytes(m, second, size'))
  }

  function EndLength(m: Mem, p: nat, n: nat): nat { NodeLength(m, Skip(m, p, n)) }

  /** uefi_devpath_append into the memory at `devpath` that AllocatePool returned;
      None is the panic on a null path. The paths come out joined when the first
      one's end node has its four bytes, and, if the second one's has, then only. */
  method Append(m: Mem, first: nat, second: nat, devpath: nat, ghost n: nat, ghost k: nat) returns (r: Option<Mem>)
    requires (first != 0 ==> Path(m, first, n)) && (second != 0 ==> Path(m, second, k))
    requires first != 0 && second != 0 ==>
      var room := PathSize(m, first, n) + PathSize(m, second, k);
      second + PathSize(m, second, k) <= devpath || devpath + room <= second
    ensures r.None? <==> first == 0 || second == 0
    ensures r.Some? && EndLength(m, first, n) == 4 ==>
      && Joined(m, first, n, second, k, r.value, devpath)
      && PathSize(r.value, devpath, n + k) == PathSize(m, first, n) + PathSize(m, second, k) - 4
    ensures r.Some? && EndLength(m, second, k) == 4 ==>
      (Joined(m, first, n, second, k, r.value, devpath) <==> EndLength(m, first, n) == 4)
    ensures r.Some? ==> forall x: nat | x < devpath || devpath + PathSize(m, first, n) + PathSize(m, second, k) - 4 <= x :: r.value(x) == m(x)
  {
    hide Path, Chain, Skip, Nodes, IsEnd, NodeLength, Joined, PathSize, EndLength, EndNode;
    if first == 0 || second == 0 { return None; }
    var firstSize := Size(m, first, n);
    var secondSize := Size(m, second, k);
    SizeAtLeast(m, first, n);
    SizeAtLeast(m, second, k);
    var m1 := Copy(m, devpath, Bytes(m, first, firstSize));
    assert Bytes(m1, second, secondSize) == Bytes(m, second, secondSize);
    var m2 := Copy(m1, devpath + firstSize - |EMPTY|, Bytes(m1, second, secondSize));
    assert m2 == Splice(m, first, firstSize, second, secondSize, devpath);
    if EndLength(m, first, n) == 4 { Spliced(m, m2, first, second, devpath, n, k); }
    if EndLength(m, first, n) != 4 && EndLength(m, second, k) == 4 { NotJoined(m, m2, first, second, devpath, n, k); }
    return Some(m2);
  }

  lemma SizeAtLeast(m: Mem, p: nat, n: nat)
    requires Path(m, p, n)
    ensures PathSize(m, p, n) >= EndLength(m, p, n) >= 4
  {
  }

  lemma Spliced(m: Mem, m': Mem, first: nat, second: nat, devpath: nat, n: nat, k: nat)
    requires Path(m, first, n) && Path(m, second, k) && EndLength(m, first, n) == 4
    requires m' == Splice(m, first, PathSize(m, first, n), second, PathSize(m, second, k), devpath)
    ensures Joined(m, first, n, second, k, m', devpath)
    ensures PathSize(m', devpath, n + k) == PathSize(m, first, n) + PathSize(m, second, k) - 4
  {
    hide Chain, Nodes, Skip, IsEnd, NodeLength, Bytes, Copy;
    var s, t := PathSize(m, first, n), PathSize(m, second, k);
    SkipIsTotal(m, first, n);
    var mid := devpath + s - 4;
    BytesPrefix(m, first, s, s - 4);
    BytesPrefix(m, second, t, 0);
    CopiedTwice(m, devpath, Bytes(m, first, s), mid, Bytes(m, second, t));
    Transfer(m, first, m', devpath, n, s - 4);
    PathCopied(m, second, m', mid, k, t);
    Split(m', devpath, n, k);
    SkipIsTotal(m', devpath, n);
    TotalSum(Nodes(m, first, n), Nodes(m, second, k));
    LengthOf(m, Skip(m, second, k));
    LengthOf(m', Skip(m', mid, k));
  }

  lemma LengthOf(m: Mem, e: nat)
    ensures |Bytes(m, e, NodeLength(m, e))| == NodeLength(m, e)
  {
  }

  lemma BytesPrefix(m: Mem, p: nat, n: nat, k: nat)
    requires k <= n
    ensures |Bytes(m, p, n)| == n && Bytes(m, p, n)[..k] == Bytes(m, p, k)
  {
  }

  lemma {:induction false} TotalSum(a: seq<seq<byte>>, b: seq<seq<byte>>)
    ensures TotalLength(a + b) == TotalLength(a) + TotalLength(b)
    decreases |a|
  {
    if a == [] {
      assert a + b == b;
    } else {
      assert (a + b)[1..] == a[1..] + b;
      TotalSum(a[1..], b);
    }
  }

  /** The second copy cuts off the end of the first and follows on. */
  lemma CopiedTwice(m: Mem, p: nat, a: seq<byte>, q: nat, b: seq<byte>)
    requires p <= q <= p + |a|
    ensures var m' := Copy(Copy(m, p, a), q, b);
      Bytes(m', p, q - p) == a[..q - p] && Bytes(m', q, |b|) == b
  {
  }

  lemma PathCopied(m: Mem, p: nat, m': Mem, q: nat, n: nat, size: nat)
    requires Path(m, p, n) && size == PathSize(m, p, n) && Bytes(m', q, size) == Bytes(m, p, size)
    ensures Path(m', q, n) && Nodes(m', q, n) == Nodes(m, p, n) && EndNode(m', q, n) == EndNode(m, p, n)
  {
    hide Chain, Nodes, Skip, IsEnd, NodeLength, Bytes;
    SkipIsTotal(m, p, n);
    Transfer(m, p, m', q, n, size);
    var off, len := Skip(m, p, n) - p, NodeLength(m, Skip(m, p, n));
    Part(m, p, m', q, size, off, len);
    HeaderCopied(m, p + off, m', q + off, len);
  }

  // ------------------------------------------------------------------ end nodes of other lengths

  /** Nodes determine the bytes they are made of. */
  lemma {:induction false} SameNodes(m: Mem, p: nat, m': Mem, q: nat, n: nat)
    requires Nodes(m', q, n) == Nodes(m, p, n)
    ensures Skip(m', q, n) - q == Skip(m, p, n) - p
    ensures Bytes(m', q, Skip(m, p, n) - p) == Bytes(m, p, Skip(m, p, n) - p)
    decreases n
  {
    if n > 0 {
      hide Bytes, IsEnd, NodeLength;
      OneNode(m, p, n);
      OneNode(m', q, n);
      var len := NodeLength(m, p);
      var rest := Skip(m, p, n) - Next(m, p);
      assert Nodes(m', q, n)[0] == Nodes(m, p, n)[0] && Nodes(m', q, n)[1..] == Nodes(m, p, n)[1..];
      LengthOf(m, p);
      LengthOf(m', q);
      SameNodes(m, Next(m, p), m', Next(m', q), n - 1);
      Concatenate(m, p, len, rest);
      Concatenate(m', q, len, rest);
    }
  }

  lemma Concatenate(m: Mem, p: nat, len: nat, rest: nat)
    ensures Bytes(m, p, len + rest) == Bytes(m, p, len) + Bytes(m, p + len, rest)
  {
  }

  /** What being joined says about single bytes: the second path starts where the
      first one's nodes end. */
  lemma JoinedBytes(m: Mem, first: nat, n: nat, second: nat, k: nat, m': Mem, devpath: nat)
    requires Path(m, first, n) && Path(m, second, k) && Joined(m, first, n, second, k, m', devpath)
    ensures Bytes(m', devpath + (Skip(m, first, n) - first), PathSize(m, second, k)) == Bytes(m, second, PathSize(m, second, k))
  {
    hide Chain, Nodes, Skip, IsEnd, NodeLength, Bytes;
    Split(m', devpath, n, k);
    SkipIsTotal(m, first, n);
    SkipIsTotal(m', devpath, n);
    SkipIsTotal(m, second, k);
    var mid := Skip(m', devpath, n);
    assert Nodes(m', devpath, n) == Nodes(m', devpath, n + k)[..n] == Nodes(m, first, n);
    assert Nodes(m', mid, k) == Nodes(m', devpath, n + k)[n..] == Nodes(m, second, k);
    SameNodes(m, first, m', devpath, n);
    SameNodes(m, second, m', mid, k);
    var e, e' := Skip(m, second, k), Skip(m', mid, k);
    LengthOf(m, e);
    LengthOf(m', e');
    Concatenate(m, second, e - second, NodeLength(m, e));
    Concatenate(m', mid, e' - mid, NodeLength(m', e'));
  }

  lemma ByteAt(m: Mem, p: nat, m': Mem, q: nat, size: nat, i: nat)
    requires Bytes(m', q, size) == Bytes(m, p, size) && i < size
    ensures m'(q + i) == m(p + i)
  {
    assert Bytes(m', q, size)[i] == Bytes(m, p, size)[i];
  }

  lemma EndBytes(m: Mem, p: nat, k: nat)
    requires Path(m, p, k) && EndLength(m, p, k) == 4
    ensures var e := p + PathSize(m, p, k) - 4; e == Skip(m, p, k) && m(e) == END && m(e + 1) == ENTIRE_END && m(e + 2) == 4 && m(e + 3) == 0
  {
    hide Chain, Nodes, Skip;
    SkipIsTotal(m, p, k);
  }

  /** With an end node of more than four bytes the second path is copied in too
      late. The joined path would have to hold its bytes twice, that many bytes
      apart: impossible by its own end node 7F FF 04 00 for one to three, and by
      the first path's surviving end node from four on. */
  lemma NotJoined(m: Mem, m': Mem, first: nat, second: nat, devpath: nat, n: nat, k: nat)
    requires Path(m, first, n) && Path(m, second, k) && EndLength(m, first, n) != 4 && EndLength(m, second, k) == 4
    requires m' == Splice(m, first, PathSize(m, first, n), second, PathSize(m, second, k), devpath)
    ensures !Joined(m, first, n, second, k, m', devpath)
  {
    hide Chain, Nodes, Skip, Bytes, Copy, Joined;
    var s, t := PathSize(m, first, n), PathSize(m, second, k);
    SkipIsTotal(m, first, n);
    SkipIsTotal(m, second, k);
    SizeAtLeast(m, first, n);
    SizeAtLeast(m, second, k);
    var e := devpath + (Skip(m, first, n) - first);
    var late := EndLength(m, first, n) - 4;
    assert e + late == devpath + s - 4;
    BytesPrefix(m, first, s, s - 4);
    BytesPrefix(m, second, t, 0);
    CopiedTwice(m, devpath, Bytes(m, first, s), e + late, Bytes(m, second, t));
    if late < 4 {
      TooLate(m, second, k, m', e, late);
    } else {
      SurvivingEnd(m, first, n, m', devpath, s);
      EndFirst(m, second, k, m', e);
    }
    if Joined(m, first, n, second, k, m', devpath) { JoinedBytes(m, first, n, second, k, m', devpath); }
  }

  lemma Differ(m: Mem, p: nat, m': Mem, q: nat, size: nat, i: nat)
    requires i < size && m'(q + i) != m(p + i)
    ensures Bytes(m', q, size) != Bytes(m, p, size)
  {
    assert Bytes(m', q, size)[i] != Bytes(m, p, size)[i];
  }

  /** A copy that starts one to three bytes late is not also there in time. */
  lemma TooLate(m: Mem, second: nat, k: nat, m': Mem, e: nat, late: nat)
    requires Path(m, second, k) && EndLength(m, second, k) == 4 && 0 < late < 4
    requires Bytes(m', e + late, PathSize(m, second, k)) == Bytes(m, second, PathSize(m, second, k))
    ensures Bytes(m', e, PathSize(m, second, k)) != Bytes(m, second, PathSize(m, second, k))
  {
    hide Path, PathSize, EndLength, Bytes;
    var t := PathSize(m, second, k);
    SizeAtLeast(m, second, k);
    EndBytes(m, second, k);
    var i := if late == 2 then t - 2 else t - 1;
    ByteAt(m, second, m', e + late, t, i - late);
    Differ(m, second, m', e, t, i);
  }

  /** Nor is it where a longer end node stands. */
  lemma EndFirst(m: Mem, second: nat, k: nat, m': Mem, e: nat)
    requires Path(m, second, k) && EndLength(m, second, k) == 4 && IsEnd(m', e) && NodeLength(m', e) != 4
    ensures Bytes(m', e, PathSize(m, second, k)) != Bytes(m, second, PathSize(m, second, k))
  {
    hide PathSize, Bytes;
    SizeAtLeast(m, second, k);
    var i := if k == 0 then (if m'(e + 2) != 4 then 2 else 3) else if m(second) != END then 0 else 1;
    Differ(m, second, m', e, PathSize(m, second, k), i);
  }

  /** The first four bytes of a long end node are still there. */
  lemma SurvivingEnd(m: Mem, first: nat, n: nat, m': Mem, devpath: nat, s: nat)
    requires Path(m, first, n) && s == PathSize(m, first, n) && EndLength(m, first, n) >= 8
    requires Bytes(m', devpath, s - 4) == Bytes(m, first, s)[..s - 4]
    ensures var e := devpath + (Skip(m, first, n) - first); IsEnd(m', e) && NodeLength(m', e) == EndLength(m, first, n)
  {
    hide Chain, Nodes, Skip, Bytes, IsEnd, NodeLength;
    SkipIsTotal(m, first, n);
    var off := Skip(m, first, n) - first;
    BytesPrefix(m, first, s, s - 4);
    Part(m, first, m', devpath, s - 4, off, s - 4 - off);
    HeaderCopied(m, first + off, m', devpath + off, s - 4 - off);
  }

  /** One such pair of paths: an end node of five bytes, 7F FF 05 00 00, and an
      empty path. The result starts 7F 7F and does not end. */
  lemma LongEndExample()
    ensures var m := Copy(Copy((x: nat) => 0, 16, [END, ENTIRE_END, 5, 0, 0]), 32, EMPTY);
      && Path(m, 16, 0) && Path(m, 32, 0) && PathSize(m, 16, 0) == 5 && PathSize(m, 32, 0) == 4
      && var m' := Splice(m, 16, 5, 32, 4, 64);
        m'(64) == END && m'(65) == END && !IsEnd(m', 64) && !Joined(m, 16, 0, 32, 0, m', 64)
  {
    var m := Copy(Copy((x: nat) => 0, 16, [END, ENTIRE_END, 5, 0, 0]), 32, EMPTY);
    var m' := Splice(m, 16, 5, 32, 4, 64);
    NotJoined(m, m', 16, 32, 64, 0, 0);
  }

  // ------------------------------------------------------------------ writing nodes

  /** uefi_devpath_set_node_length; None is the panic. */
  function SetNodeLength(m: Mem, node: nat, length: nat): Option<Mem> {
    if node == 0 || length < 4 then None
    else Some(Copy(m, node + 2, [length % 0x1_0000 % 256, length % 0x1_0000 / 256]))
  }

  /** A length survives being stored exactly when it has 16 bits. */
  lemma LengthRoundTrip(m: Mem, node: nat, length: nat)
    requires node != 0 && length >= 4
    ensures NodeLength(SetNodeLength(m, node, length).value, node) == length <==> length < 0x1_0000
    ensures IsEnd(SetNodeLength(m, node, length).value, node) == IsEnd(m, node)
  {
  }

  /** uefi_devpath_set_end; None is the panic. */
  function SetEnd(m: Mem, node: nat): Option<Mem> { if node == 0 then None else Some(Copy(m, node, EMPTY)) }

  /** It makes a path of no nodes, at any address but the null pointer. */
  lemma SetEndIsPath(m: Mem, node: nat)
    ensures SetEnd(m, node).None? <==> node == 0
    ensures node != 0 ==> Path(SetEnd(m, node).value, node, 0) && PathSize(SetEnd(m, node).value, node, 0) == 4
    ensures node != 0 ==> forall x: nat | x < node || node + 4 <= x :: SetEnd(m, node).value(x) == m(x)
  {
  }
}
