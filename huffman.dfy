/** The Huffman compilers: the read tree built from explicit symbol/code pairs
    through a work-in-progress trie, and the write table mapping each symbol to
    its code as a (length, value) field in both bit orders. A code is a
    sequence of bytes, each of which must be 0 or 1; codes are consumed and
    written from their first element to their last. */
module Huffman {
  import opened Bits
  import opened Results

  /** Why a set of codes does not make a tree. */
  datatype HuffmanTreeError = InvalidBit | MissingLeaf | DuplicateLeaf | OrphanedLeaf

  datatype Option<T> = None | Some(value: T)

  /** A finished tree for reading: every slot holds a symbol or a subtree. */
  datatype ReadTree<T> = Leaf(symbol: T) | Tree(zero: ReadTree<T>, one: ReadTree<T>)

  /** A tree under construction, whose slots may still be empty. */
  datatype WipTree<T> = Empty | WipLeaf(symbol: T) | WipNode(zero: WipTree<T>, one: WipTree<T>)

  /** The symbol/code pairs both compilers take, in the order given. */
  type Codes<T> = seq<(T, seq<Byte>)>

  /** Every element of the code is a bit. */
  predicate IsBits(code: seq<Byte>) {
    forall i | 0 <= i < |code| :: code[i] == 0 || code[i] == 1
  }

  /*** The read tree ***/

  /** The slot a path leads to from the root of `t` (0 goes to the zero
      child, 1 to the one child); `None` when the path does not stay inside
      the tree: it passes a leaf or an empty slot, or has an element that is
      not a bit. */
  function At<T>(t: WipTree<T>, path: seq<Byte>): Option<WipTree<T>>
    decreases |path|
  {
    if |path| == 0 then Some(t)
    else if t.WipNode? && path[0] == 0 then At(t.zero, path[1..])
    else if t.WipNode? && path[0] == 1 then At(t.one, path[1..])
    else None
  }

  /** The symbol whose leaf a code ends at. */
  function WipFind<T>(t: WipTree<T>, code: seq<Byte>): Option<T> {
    match At(t, code)
    case Some(WipLeaf(symbol)) => Some(symbol)
    case _ => None
  }

  /** The walk along `code` reaches an empty slot, at the end of the code or
      before it: a leaf for the code can go there. */
  ghost predicate FreeSlot<T>(t: WipTree<T>, code: seq<Byte>) {
    exists k | 0 <= k <= |code| :: At(t, code[..k]) == Some(Empty)
  }

  /** `WipHuffmanTree::add`: the tree with a leaf for `symbol` at `code`.
      An empty slot reached with the code exhausted becomes the leaf, one
      reached before becomes a node of two empty slots and the walk goes on;
      a leaf reached is a duplicate when the code is exhausted and an orphan
      otherwise; a node reached with the code exhausted is a duplicate; an
      element other than 0 or 1 at a node is an invalid bit. */
  function Add<T>(t: WipTree<T>, code: seq<Byte>, symbol: T): (r: Result<WipTree<T>, HuffmanTreeError>)
    ensures r.Ok? ==> WipFind(r.value, code) == Some(symbol)
    ensures r.Err? ==> r.error != MissingLeaf
    decreases |code|, if t.Empty? then 1 else 0
  {
    match t
    case Empty =>
      if |code| == 0 then Ok(WipLeaf(symbol))
      else Add(WipNode(Empty, Empty), code, symbol)
    case WipLeaf(_) =>
      Err(if |code| == 0 then DuplicateLeaf else OrphanedLeaf)
    case WipNode(zero, one) =>
      if |code| == 0 then Err(DuplicateLeaf)
      else if code[0] == 0 then
        match Add(zero, code[1..], symbol)
        case Ok(z) => Ok(WipNode(z, one))
        case Err(e) => Err(e)
      else if code[0] == 1 then
        match Add(one, code[1..], symbol)
        case Ok(o) => Ok(WipNode(zero, o))
        case Err(e) => Err(e)
      else Err(InvalidBit)
  }

  /** `into_read_tree`: the finished tree, or `MissingLeaf` when a slot is
      still empty. */
  function IntoReadTree<T>(t: WipTree<T>): (r: Result<ReadTree<T>, HuffmanTreeError>)
    ensures r.Ok? ==> ToWip(r.value) == t
    ensures r.Err? ==> r.error == MissingLeaf && HasEmpty(t)
  {
    match t
    case Empty =>
      assert At(t, []) == Some(Empty);
      Err(MissingLeaf)
    case WipLeaf(symbol) => Ok(Leaf(symbol))
    case WipNode(zero, one) =>
      match IntoReadTree(zero)
      case Err(e) =>
        EmptyBelow(t, 0);
        Err(e)
      case Ok(z) =>
        match IntoReadTree(one)
        case Err(e) =>
          EmptyBelow(t, 1);
          Err(e)
        case Ok(o) => Ok(Tree(z, o))
  }

  /** An empty slot under a child is an empty slot of the node. */
  lemma EmptyBelow<T>(t: WipTree<T>, bit: Byte)
    requires t.WipNode? && (bit == 0 || bit == 1)
    requires HasEmpty(if bit == 0 then t.zero else t.one)
    ensures HasEmpty(t)
  {
    var path :| At(if bit == 0 then t.zero else t.one, path) == Some(Empty);
    assert ([bit] + path)[1..] == path;
    assert At(t, [bit] + path) == Some(Empty);
  }

  /** Stepping into a node along a bit: the slots below the node along the
      path are the slots below the child along the rest of the path. */
  lemma AtPrefixStep<T>(t: WipTree<T>, code: seq<Byte>, k: nat)
    requires t.WipNode? && 0 < k <= |code| && (code[0] == 0 || code[0] == 1)
    ensures At(t, code[..k]) == At(if code[0] == 0 then t.zero else t.one, code[1..][..k - 1])
  {
    assert code[..k][1..] == code[1..][..k - 1];
  }

  /** A leaf can go at `code` exactly when the code is made of bits and its
      walk from the root reaches an empty slot. */
  lemma {:induction false} AddOkIff<T>(t: WipTree<T>, code: seq<Byte>, symbol: T)
    ensures Add(t, code, symbol).Ok? <==> IsBits(code) && FreeSlot(t, code)
    decreases |code|, if t.Empty? then 1 else 0
  {
    match t
    case Empty =>
      assert At(t, code[..0]) == Some(Empty);
      if |code| > 0 {
        var node: WipTree<T> := WipNode(Empty, Empty);
        AddOkIff(node, code, symbol);
        if IsBits(code) {
          AtPrefixStep(node, code, 1);
          assert At(node, code[..1]) == Some(Empty);
        }
      }
    case WipLeaf(_) =>
      forall k | 0 <= k <= |code|
        ensures At(t, code[..k]) != Some(Empty)
      {
      }
    case WipNode(zero, one) =>
      if |code| == 0 {
        assert code[..0] == code;
      } else if code[0] == 0 || code[0] == 1 {
        var child := if code[0] == 0 then zero else one;
        AddOkIff(child, code[1..], symbol);
        assert IsBits(code) <==> IsBits(code[1..]) by {
          if IsBits(code[1..]) {
            forall i | 0 <= i < |code|
              ensures code[i] == 0 || code[i] == 1
            {
              if i > 0 {
                assert code[i] == code[1..][i - 1];
              }
            }
          }
        }
        if FreeSlot(t, code) {
          var k :| 0 <= k <= |code| && At(t, code[..k]) == Some(Empty);
          assert k > 0 by {
            assert code[..0] == [];
          }
          AtPrefixStep(t, code, k);
        }
        if FreeSlot(child, code[1..]) {
          var k :| 0 <= k <= |code[1..]| && At(child, code[1..][..k]) == Some(Empty);
          AtPrefixStep(t, code, k + 1);
        }
      }
  }

  /** The slot that receives a new leaf holds no symbol before. */
  lemma {:induction false} AddFresh<T>(t: WipTree<T>, code: seq<Byte>, symbol: T)
    requires Add(t, code, symbol).Ok?
    ensures WipFind(t, code) == None
    decreases |code|, if t.Empty? then 1 else 0
  {
    match t
    case Empty =>
    case WipLeaf(_) =>
    case WipNode(zero, one) =>
      AddFresh(if code[0] == 0 then zero else one, code[1..], symbol);
  }

  /** After a successful `add`, the new code leads to the new symbol and every
      other code leads where it led before. */
  lemma {:induction false} AddFind<T>(t: WipTree<T>, code: seq<Byte>, symbol: T, c: seq<Byte>)
    requires Add(t, code, symbol).Ok?
    ensures WipFind(Add(t, code, symbol).value, c) == if c == code then Some(symbol) else WipFind(t, c)
    decreases |code|, if t.Empty? then 1 else 0
  {
    match t
    case Empty =>
      if |code| > 0 {
        var node: WipTree<T> := WipNode(Empty, Empty);
        AddFind(node, code, symbol, c);
        if |c| > 0 && (c[0] == 0 || c[0] == 1) {
          assert At(node, c) == At(node.zero, c[1..]);
        }
      }
    case WipNode(zero, one) =>
      if |c| > 0 && c[0] == code[0] {
        AddFind(if code[0] == 0 then zero else one, code[1..], symbol, c[1..]);
        assert c == code <==> c[1..] == code[1..] by {
          if c[1..] == code[1..] {
            assert c == [c[0]] + c[1..] && code == [code[0]] + code[1..];
          }
        }
      }
  }

  /** A node of two empty slots has no leaf anywhere along a path. */
  lemma FreshNodeNoLeaf<T>(node: WipTree<T>, code: seq<Byte>)
    requires node == WipNode(Empty, Empty)
    ensures forall k | 0 <= k <= |code| :: !(At(node, code[..k]).Some? && At(node, code[..k]).value.WipLeaf?)
  {
    forall k | 0 <= k <= |code|
      ensures !(At(node, code[..k]).Some? && At(node, code[..k]).value.WipLeaf?)
    {
      if k == 0 {
        assert code[..0] == [];
      } else if code[0] == 0 || code[0] == 1 {
        AtPrefixStep(node, code, k);
      }
    }
  }

  /** The error `add` reports says what is wrong with the code: an element
      that is not a bit, a leaf on the way (an orphan), or a slot already
      taken at the code's end (a duplicate); never a missing leaf. */
  lemma {:induction false} AddErrors<T>(t: WipTree<T>, code: seq<Byte>, symbol: T)
    ensures Add(t, code, symbol) != Err(MissingLeaf)
    ensures Add(t, code, symbol) == Err(InvalidBit) ==> !IsBits(code)
    ensures Add(t, code, symbol) == Err(OrphanedLeaf) ==>
              exists k | 0 <= k < |code| :: At(t, code[..k]).Some? && At(t, code[..k]).value.WipLeaf?
    ensures Add(t, code, symbol) == Err(DuplicateLeaf) ==> At(t, code).Some? && !At(t, code).value.Empty?
    decreases |code|, if t.Empty? then 1 else 0
  {
    match t
    case Empty =>
      if |code| > 0 {
        var node: WipTree<T> := WipNode(Empty, Empty);
        AddErrors(node, code, symbol);
        FreshNodeNoLeaf(node, code);
      }
    case WipLeaf(_) =>
      if |code| > 0 {
        assert At(t, code[..0]) == Some(t);
      }
    case WipNode(zero, one) =>
      if |code| > 0 && (code[0] == 0 || code[0] == 1) {
        var child := if code[0] == 0 then zero else one;
        AddErrors(child, code[1..], symbol);
        if Add(t, code, symbol) == Err(OrphanedLeaf) {
          var k :| 0 <= k < |code[1..]| && At(child, code[1..][..k]).Some? && At(child, code[1..][..k]).value.WipLeaf?;
          AtPrefixStep(t, code, k + 1);
        }
        if Add(t, code, symbol) == Err(InvalidBit) {
          var i :| 0 <= i < |code[1..]| && !(code[1..][i] == 0 || code[1..][i] == 1);
          assert code[i + 1] == code[1..][i];
        }
      }
  }

  /** A finished tree seen as a tree under construction. */
  function ToWip<T>(t: ReadTree<T>): WipTree<T> {
    match t
    case Leaf(symbol) => WipLeaf(symbol)
    case Tree(zero, one) => WipNode(ToWip(zero), ToWip(one))
  }

  /** Some slot of the tree is empty. */
  ghost predicate HasEmpty<T>(t: WipTree<T>) {
    exists path :: At(t, path) == Some(Empty)
  }

  /** Reading a code with a finished tree: follow the code from the root and
      take the symbol of the leaf it ends at. */
  function Lookup<T>(t: ReadTree<T>, code: seq<Byte>): Option<T>
    decreases |code|
  {
    if |code| == 0 then (if t.Leaf? then Some(t.symbol) else None)
    else if t.Tree? && code[0] == 0 then Lookup(t.zero, code[1..])
    else if t.Tree? && code[0] == 1 then Lookup(t.one, code[1..])
    else None
  }

  /** The tree that adding the pairs of `values`, in order, to `t` gives;
      the first failing addition decides the error. */
  function AddAll<T>(t: WipTree<T>, values: Codes<T>): (r: Result<WipTree<T>, HuffmanTreeError>)
    ensures r.Err? ==> r.error != MissingLeaf
    decreases |values|
  {
    if |values| == 0 then Ok(t)
    else match Add(t, values[0].1, values[0].0)
      case Err(e) => Err(e)
      case Ok(t2) => AddAll(t2, values[1..])
  }

  /** `ReadHuffmanTree::new`, as a value: `MissingLeaf` is reported exactly
      when every pair was added and a slot is left without a symbol. */
  function BuildReadTree<T>(values: Codes<T>): (r: Result<ReadTree<T>, HuffmanTreeError>)
    ensures r.Err? ==> (r.error == MissingLeaf <==> AddAll(Empty, values).Ok?)
    ensures r.Err? && r.error == MissingLeaf ==> HasEmpty(AddAll(Empty, values).value)
  {
    match AddAll(Empty, values)
    case Err(e) => Err(e)
    case Ok(t) => IntoReadTree(t)
  }

  /** Adding pairs in order keeps every leaf already there and leaves each
      added code leading to its symbol. */
  lemma {:induction false} AddAllFinds<T>(t: WipTree<T>, values: Codes<T>)
    requires AddAll(t, values).Ok?
    ensures forall c :: WipFind(t, c).Some? ==> WipFind(AddAll(t, values).value, c) == WipFind(t, c)
    ensures forall i | 0 <= i < |values| :: WipFind(AddAll(t, values).value, values[i].1) == Some(values[i].0)
    decreases |values|
  {
    if |values| > 0 {
      var (symbol, code) := values[0];
      var t2 := Add(t, code, symbol).value;
      AddAllFinds(t2, values[1..]);
      forall c | WipFind(t, c).Some?
        ensures WipFind(t2, c) == WipFind(t, c)
      {
        AddFind(t, code, symbol, c);
        AddFresh(t, code, symbol);
      }
      AddFind(t, code, symbol, code);
      forall i | 0 < i < |values|
        ensures WipFind(AddAll(t, values).value, values[i].1) == Some(values[i].0)
      {
        assert values[i] == values[1..][i - 1];
      }
    }
  }

  /** Reading with a finished tree follows the same slots as its
      work-in-progress form. */
  lemma {:induction false} LookupWip<T>(t: ReadTree<T>, code: seq<Byte>)
    ensures Lookup(t, code) == WipFind(ToWip(t), code)
    decreases |code|
  {
    if |code| > 0 && t.Tree? && (code[0] == 0 || code[0] == 1) {
      LookupWip(if code[0] == 0 then t.zero else t.one, code[1..]);
    }
  }

  /** After a successful `ReadHuffmanTree::new`, every code given leads, from
      the root, to a leaf holding its symbol. */
  lemma BuildReadTreeFinds<T>(values: Codes<T>)
    requires BuildReadTree(values).Ok?
    ensures forall i | 0 <= i < |values| :: Lookup(BuildReadTree(values).value, values[i].1) == Some(values[i].0)
  {
    AddAllFinds(Empty, values);
    forall i | 0 <= i < |values|
      ensures Lookup(BuildReadTree(values).value, values[i].1) == Some(values[i].0)
    {
      LookupWip(BuildReadTree(values).value, values[i].1);
    }
  }

  /** A finished tree has no empty slot: `ReadHuffmanTree::new` succeeds
      exactly when every addition does and no slot is left empty. */
  lemma BuildReadTreeOkIff<T>(values: Codes<T>)
    ensures BuildReadTree(values).Ok? <==> AddAll(Empty, values).Ok? && !HasEmpty(AddAll(Empty, values).value)
  {
    if BuildReadTree(values).Ok? {
      ToWipFull(BuildReadTree(values).value);
    }
  }

  /** The work-in-progress form of a finished tree has no empty slot. */
  lemma ToWipFull<T>(t: ReadTree<T>)
    ensures !HasEmpty(ToWip(t))
  {
    forall path
      ensures At(ToWip(t), path) != Some(Empty)
    {
      ToWipSlot(t, path);
    }
  }

  /** No path leads to an empty slot of a finished tree. */
  lemma {:induction false} ToWipSlot<T>(t: ReadTree<T>, path: seq<Byte>)
    ensures At(ToWip(t), path) != Some(Empty)
    decreases |path|
  {
    if |path| > 0 && t.Tree? && (path[0] == 0 || path[0] == 1) {
      ToWipSlot(if path[0] == 0 then t.zero else t.one, path[1..]);
    }
  }

  /** Three codes that cover every bit string make a tree. */
  lemma CompleteCodesAccepted()
    ensures BuildReadTree([(1, [0]), (2, [1, 0]), (3, [1, 1])]).Ok?
  {
  }

  /** Without a symbol for the code `1 0` no tree can be finished. */
  lemma MissingCodeRejected()
    ensures BuildReadTree([(1, [0]), (3, [1, 1])]) == Err(MissingLeaf)
  {
  }

  /** `ReadHuffmanTree::new`: add each pair to an empty tree, stopping at the
      first error, and finish the tree. */
  method NewReadTree<T>(values: Codes<T>) returns (r: Result<ReadTree<T>, HuffmanTreeError>)
    ensures r == BuildReadTree(values)
  {
    var tree: WipTree<T> := Empty;
    var i := 0;
    while i < |values|
      invariant 0 <= i <= |values|
      invariant AddAll(Empty, values) == AddAll(tree, values[i..])
    {
      var added := Add(tree, values[i].1, values[i].0);
      if added.Err? {
        return Err(added.error);
      }
      assert values[i..][1..] == values[i + 1..];
      tree := added.value;
      i := i + 1;
    }
    r := IntoReadTree(tree);
  }

  /*** The write table ***/

  /** `WriteHuffmanTree`: for each symbol, the (length, value) field of its
      code in each bit order. */
  datatype WriteTree<T(==)> = WriteTree(bigEndian: map<T, (nat, nat)>, littleEndian: map<T, (nat, nat)>)

  /** A code's elements as bits, first element first. */
  function CodeBits(code: seq<Byte>): (r: seq<bool>)
    ensures |r| == |code|
  {
    seq(|code|, i requires 0 <= i < |code| => code[i] == 1)
  }

  /** The field a code is written as: its length, and its bits read as a
      number in the given bit order (big-endian: the first element is the
      most significant; little-endian: the least). */
  function Entry(e: Endianness, code: seq<Byte>): (nat, nat) {
    (|code|, FromBits(e, CodeBits(code)))
  }

  /** The table with `symbol` entered for `code`, unless the symbol is
      already there (`entry(..).or_insert(..)` on both maps). */
  function Enter<T(==)>(w: WriteTree<T>, symbol: T, code: seq<Byte>): WriteTree<T> {
    WriteTree(
      if symbol in w.bigEndian then w.bigEndian else w.bigEndian[symbol := Entry(BigEndian, code)],
      if symbol in w.littleEndian then w.littleEndian else w.littleEndian[symbol := Entry(LittleEndian, code)])
  }

  /** The table that entering the pairs of `values`, in order, into `w`
      gives, or `InvalidBit` at the first code with an element other than 0
      or 1. */
  function EnterAll<T(==)>(w: WriteTree<T>, values: Codes<T>): (r: Result<WriteTree<T>, HuffmanTreeError>)
    ensures r.Err? ==> r.error == InvalidBit
    ensures r.Ok? ==> w.bigEndian.Keys <= r.value.bigEndian.Keys && w.littleEndian.Keys <= r.value.littleEndian.Keys
    decreases |values|
  {
    if |values| == 0 then Ok(w)
    else if !IsBits(values[0].1) then Err(InvalidBit)
    else EnterAll(Enter(w, values[0].0, values[0].1), values[1..])
  }

  /** `WriteHuffmanTree::new`, as a value: the only error it reports is
      `InvalidBit`. */
  function BuildWriteTree<T(==)>(values: Codes<T>): (r: Result<WriteTree<T>, HuffmanTreeError>)
    ensures r.Err? ==> r.error == InvalidBit
  {
    EnterAll(WriteTree(map[], map[]), values)
  }

  /** `WriteHuffmanTree::new`: for each pair, push the code's bits one at a
      time into a big-endian and a little-endian queue, refusing an element
      other than 0 or 1, and enter the two queues' values for the symbol
      unless it already has an entry. Codes are at most 64 bits long, the
      size of the queues. */
  method NewWriteTree<T(==)>(values: Codes<T>) returns (r: Result<WriteTree<T>, HuffmanTreeError>)
    requires forall i | 0 <= i < |values| :: |values[i].1| <= 64
    ensures r == BuildWriteTree(values)
  {
    var bigEndian: map<T, (nat, nat)> := map[];
    var littleEndian: map<T, (nat, nat)> := map[];
    var i := 0;
    while i < |values|
      invariant 0 <= i <= |values|
      invariant BuildWriteTree(values) == EnterAll(WriteTree(bigEndian, littleEndian), values[i..])
    {
      var (symbol, code) := values[i];
      var be, le := EncodeCode(code);
      if be.Err? {
        return Err(InvalidBit);
      }
      if symbol !in bigEndian {
        bigEndian := bigEndian[symbol := be.value];
      }
      if symbol !in littleEndian {
        littleEndian := littleEndian[symbol := le];
      }
      assert values[i..][1..] == values[i + 1..];
      i := i + 1;
    }
    r := Ok(WriteTree(bigEndian, littleEndian));
  }

  /** The inner loop of `WriteHuffmanTree::new`: one code pushed bit by bit
      into a big-endian and a little-endian queue, whose values are the
      code's entries; `InvalidBit` for an element other than 0 or 1. */
  method EncodeCode(code: seq<Byte>) returns (be: Result<(nat, nat), HuffmanTreeError>, le: (nat, nat))
    requires |code| <= 64
    ensures be.Ok? <==> IsBits(code)
    ensures be.Err? ==> be.error == InvalidBit
    ensures be.Ok? ==> be.value == Entry(BigEndian, code) && le == Entry(LittleEndian, code)
  {
    var beQueue := EmptyQueue;
    var leQueue := EmptyQueue;
    var j := 0;
    while j < |code|
      invariant 0 <= j <= |code| && forall k | 0 <= k < j :: code[k] == 0 || code[k] == 1
      invariant beQueue.Valid() && leQueue.Valid() && beQueue.bits == j && leQueue.bits == j
      invariant QueueBits(BigEndian, beQueue) == CodeBits(code[..j])
      invariant QueueBits(LittleEndian, leQueue) == CodeBits(code[..j])
    {
      var bit := code[j];
      if bit != 0 && bit != 1 {
        return Err(InvalidBit), (0, 0);
      }
      beQueue := PushCodeBit(BigEndian, beQueue, code, j);
      leQueue := PushCodeBit(LittleEndian, leQueue, code, j);
      j := j + 1;
    }
    assert code[..j] == code;
    QueueEntry(BigEndian, beQueue, code);
    QueueEntry(LittleEndian, leQueue, code);
    be := Ok((j, beQueue.value));
    le := (j, leQueue.value);
  }

  /** A queue holding exactly a code's bits holds its entry's value. */
  lemma QueueEntry(e: Endianness, q: BitQueue, code: seq<Byte>)
    requires q.Valid() && QueueBits(e, q) == CodeBits(code)
    ensures Entry(e, code) == (q.bits, q.value)
  {
  }

  /** `push(1, bit)` of the code's element at `j` onto a queue holding the
      code's first `j` bits. */
  method PushCodeBit(e: Endianness, q: BitQueue, code: seq<Byte>, j: nat) returns (r: BitQueue)
    requires q.Valid() && j < |code| && (code[j] == 0 || code[j] == 1)
    requires q.bits == j && QueueBits(e, q) == CodeBits(code[..j])
    ensures r.Valid() && r.bits == j + 1 && QueueBits(e, r) == CodeBits(code[..j + 1])
  {
    ToBitsSingle(e, code[j]);
    r := Push(e, q, 1, code[j]);
    assert CodeBits(code[..j + 1]) == CodeBits(code[..j]) + [code[j] == 1];
  }

  /** `has_symbol`: the symbol has an entry. */
  predicate HasSymbol<T(==)>(w: WriteTree<T>, symbol: T) {
    symbol in w.bigEndian
  }

  /** `get_be` (or `get_le` for little-endian): the symbol's field; the
      source panics on a symbol without one. */
  function Get<T(==)>(w: WriteTree<T>, e: Endianness, symbol: T): (r: (nat, nat))
    requires symbol in w.bigEndian && symbol in w.littleEndian
    ensures ValidTable(w) ==> r.0 <= 64 && r.1 < Pow2(r.0)
  {
    if e == BigEndian then w.bigEndian[symbol] else w.littleEndian[symbol]
  }

  /** Every entry of a table is a field that fits: at most 64 bits, and a
      value below 2 to the length. Both maps have the same symbols. */
  ghost predicate ValidTable<T>(w: WriteTree<T>) {
    w.bigEndian.Keys == w.littleEndian.Keys &&
    (forall s | s in w.bigEndian :: w.bigEndian[s].0 <= 64 && w.bigEndian[s].1 < Pow2(w.bigEndian[s].0)) &&
    (forall s | s in w.littleEndian :: w.littleEndian[s].0 <= 64 && w.littleEndian[s].1 < Pow2(w.littleEndian[s].0))
  }

  /** The symbols of the pairs. */
  ghost function Symbols<T>(values: Codes<T>): set<T> {
    set i | 0 <= i < |values| :: values[i].0
  }

  /** The pair at `i` is the first one for its symbol. */
  ghost predicate FirstFor<T>(values: Codes<T>, i: nat) {
    i < |values| && forall j | 0 <= j < i :: values[j].0 != values[i].0
  }

  /** Entering pairs succeeds exactly when every code is made of bits. */
  lemma {:induction false} EnterAllOkIff<T>(w: WriteTree<T>, values: Codes<T>)
    ensures EnterAll(w, values).Ok? <==> forall i | 0 <= i < |values| :: IsBits(values[i].1)
    decreases |values|
  {
    if |values| > 0 {
      var rest := values[1..];
      assert forall i | 0 < i < |values| :: values[i] == rest[i - 1];
      if IsBits(values[0].1) {
        EnterAllOkIff(Enter(w, values[0].0, values[0].1), rest);
      }
    }
  }

  /** The first pair's symbol and those of the rest. */
  lemma SymbolsCons<T>(values: Codes<T>)
    requires |values| > 0
    ensures Symbols(values) == {values[0].0} + Symbols(values[1..])
  {
    var rest := values[1..];
    forall s | s in Symbols(values)
      ensures s in {values[0].0} + Symbols(rest)
    {
      var i :| 0 <= i < |values| && values[i].0 == s;
      if i > 0 {
        assert rest[i - 1].0 == s;
      }
    }
    forall s | s in Symbols(rest)
      ensures s in Symbols(values)
    {
      var i :| 0 <= i < |rest| && rest[i].0 == s;
      assert values[i + 1].0 == s;
    }
  }

  /** The map of a table for one bit order. */
  function Side<T>(w: WriteTree<T>, e: Endianness): map<T, (nat, nat)> {
    if e == BigEndian then w.bigEndian else w.littleEndian
  }

  /** Entering pairs adds their symbols to each map and keeps the entries
      already there. */
  lemma {:induction false} EnterAllKeeps<T>(w: WriteTree<T>, values: Codes<T>, e: Endianness)
    requires EnterAll(w, values).Ok?
    ensures var m, m2 := Side(w, e), Side(EnterAll(w, values).value, e);
            m2.Keys == m.Keys + Symbols(values) && forall s | s in m :: m2[s] == m[s]
    decreases |values|
  {
    if |values| > 0 {
      var (s0, c0) := values[0];
      var m, m1 := Side(w, e), Side(Enter(w, s0, c0), e);
      assert m1.Keys == m.Keys + {s0} && forall s | s in m :: m1[s] == m[s];
      SymbolsCons(values);
      EnterAllKeeps(Enter(w, s0, c0), values[1..], e);
    }
  }

  /** The first pair for a symbol, after the first pair, is the first pair
      for it among the rest. */
  lemma FirstForRest<T>(values: Codes<T>, i: nat)
    requires FirstFor(values, i) && i > 0
    ensures FirstFor(values[1..], i - 1) && values[1..][i - 1] == values[i] && values[i].0 != values[0].0
  {
    var rest := values[1..];
    forall j | 0 <= j < i - 1
      ensures rest[j].0 != rest[i - 1].0
    {
      assert rest[j] == values[j + 1];
    }
  }

  /** Entering pairs gives a symbol not yet in a map the entry of its first
      code. */
  lemma {:induction false} EnterAllFirst<T>(w: WriteTree<T>, values: Codes<T>, e: Endianness)
    requires EnterAll(w, values).Ok?
    ensures var m, m2 := Side(w, e), Side(EnterAll(w, values).value, e);
            forall i: nat | FirstFor(values, i) && values[i].0 !in m ::
              values[i].0 in m2 && m2[values[i].0] == Entry(e, values[i].1)
    decreases |values|
  {
    if |values| > 0 {
      var rest := values[1..];
      var w1 := Enter(w, values[0].0, values[0].1);
      var m2 := Side(EnterAll(w, values).value, e);
      EnterAllFirst(w1, rest, e);
      EnterAllKeeps(w1, rest, e);
      forall i: nat | FirstFor(values, i) && values[i].0 !in Side(w, e)
        ensures values[i].0 in m2 && m2[values[i].0] == Entry(e, values[i].1)
      {
        if i > 0 {
          FirstForRest(values, i);
        }
      }
    }
  }

  /** `WriteHuffmanTree::new` succeeds exactly when every code is made of
      bits; both maps then hold exactly the symbols given, and each symbol's
      entries are those of the first code given for it. */
  lemma BuildWriteTreeFacts<T>(values: Codes<T>)
    ensures BuildWriteTree(values).Ok? <==> forall i | 0 <= i < |values| :: IsBits(values[i].1)
    ensures BuildWriteTree(values).Ok? ==>
              var w := BuildWriteTree(values).value;
              w.bigEndian.Keys == Symbols(values) && w.littleEndian.Keys == Symbols(values) &&
              forall i: nat | FirstFor(values, i) ::
                w.bigEndian[values[i].0] == Entry(BigEndian, values[i].1) &&
                w.littleEndian[values[i].0] == Entry(LittleEndian, values[i].1)
  {
    EnterAllOkIff(WriteTree(map[], map[]), values);
    if BuildWriteTree(values).Ok? {
      EnterAllKeeps(WriteTree(map[], map[]), values, BigEndian);
      EnterAllKeeps(WriteTree(map[], map[]), values, LittleEndian);
      EnterAllFirst(WriteTree(map[], map[]), values, BigEndian);
      EnterAllFirst(WriteTree(map[], map[]), values, LittleEndian);
    }
  }

  /** `has_symbol` holds exactly for the symbols given. */
  lemma HasSymbolIff<T>(values: Codes<T>, symbol: T)
    requires BuildWriteTree(values).Ok?
    ensures HasSymbol(BuildWriteTree(values).value, symbol) <==> exists i | 0 <= i < |values| :: values[i].0 == symbol
  {
    BuildWriteTreeFacts(values);
  }

  /** An entry's value, written as a field of the entry's length, gives back
      the code's bits. */
  lemma EntryBits(e: Endianness, code: seq<Byte>)
    ensures Entry(e, code).1 < Pow2(Entry(e, code).0)
    ensures ToBits(e, Entry(e, code).1, Entry(e, code).0) == CodeBits(code)
  {
    ToBitsFromBits(e, CodeBits(code));
  }

  /** A table built from codes of at most 64 elements holds fields that fit,
      and each symbol's field, in either bit order, writes the bits of the
      first code given for it. */
  lemma BuildWriteTreeValid<T>(values: Codes<T>)
    requires forall i | 0 <= i < |values| :: |values[i].1| <= 64
    requires BuildWriteTree(values).Ok?
    ensures ValidTable(BuildWriteTree(values).value)
    ensures BuildWriteTree(values).value.bigEndian.Keys == Symbols(values)
    ensures forall i: nat, e: Endianness | FirstFor(values, i) ::
              var (n, v) := Get(BuildWriteTree(values).value, e, values[i].0);
              v < Pow2(n) && ToBits(e, v, n) == CodeBits(values[i].1)
  {
    var w := BuildWriteTree(values).value;
    BuildWriteTreeFacts(values);
    forall s | s in w.bigEndian
      ensures w.bigEndian[s].0 <= 64 && w.bigEndian[s].1 < Pow2(w.bigEndian[s].0)
      ensures w.littleEndian[s].0 <= 64 && w.littleEndian[s].1 < Pow2(w.littleEndian[s].0)
    {
      var i := FirstIndex(values, s);
      EntryBits(BigEndian, values[i].1);
      EntryBits(LittleEndian, values[i].1);
    }
    forall i: nat, e: Endianness | FirstFor(values, i)
      ensures var (n, v) := Get(w, e, values[i].0);
              v < Pow2(n) && ToBits(e, v, n) == CodeBits(values[i].1)
    {
      EntryBits(e, values[i].1);
    }
  }

  /** The position of the first pair for a symbol that occurs. */
  lemma {:induction false} FirstIndex<T>(values: Codes<T>, s: T) returns (i: nat)
    requires s in Symbols(values)
    ensures FirstFor(values, i) && values[i].0 == s
    decreases |values|
  {
    if values[0].0 == s {
      i := 0;
    } else {
      var rest := values[1..];
      var k :| 0 <= k < |values| && values[k].0 == s;
      assert rest[k - 1].0 == s;
      var j := FirstIndex(rest, s);
      i := j + 1;
      assert forall m | 0 < m <= i :: values[m] == rest[m - 1];
    }
  }
}
