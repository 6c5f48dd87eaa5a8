/** The list of buffers of src/core/common/buf.rs, which behaves as one run of bytes. */
module BufList {
  import opened Octets
  import opened Sequences

  function Flatten(bufs: seq<Bytes>): Bytes {
    if bufs == [] then [] else bufs[0] + Flatten(bufs[1..])
  }

  lemma {:induction false} FlattenConcat(a: seq<Bytes>, b: seq<Bytes>)
    ensures Flatten(a + b) == Flatten(a) + Flatten(b)
  {
    if a == [] {
      assert a + b == b;
    } else {
      FlattenConcat(a[1..], b);
      assert (a + b)[1..] == a[1..] + b;
      Associate(a[0], Flatten(a[1..]), Flatten(b));
    }
  }

  /** The first `i` buffers hold a prefix of the content. */
  lemma {:induction false} FlattenPrefix(bufs: seq<Bytes>, i: nat)
    requires i <= |bufs|
    ensures Flatten(bufs) == Flatten(bufs[..i]) + Flatten(bufs[i..])
    ensures i < |bufs| ==> Flatten(bufs[..i + 1]) == Flatten(bufs[..i]) + bufs[i]
  {
    FlattenConcat(bufs[..i], bufs[i..]);
    assert bufs == bufs[..i] + bufs[i..];
    if i < |bufs| {
      FlattenConcat(bufs[..i], [bufs[i]]);
      assert bufs[..i + 1] == bufs[..i] + [bufs[i]];
      assert Flatten([bufs[i]]) == bufs[i] + [];
    }
  }

  /** Moving a prefix of what is left behind what has been taken changes nothing. */
  lemma MovePrefix(taken: Bytes, content: Bytes, n: nat)
    requires n <= |content|
    ensures taken + content[..n] + content[n..] == taken + content
  {
    assert content == content[..n] + content[n..];
    Associate(taken, content[..n], content[n..]);
  }

  lemma PrefixOfMore(a: Bytes, p: Bytes, b: Bytes, z: Bytes)
    requires p <= b
    ensures a + p <= a + b + z
  {
  }

  /** The contract of `chunks_vectored` for an inner buffer: slices that are the start of its content, no more
      than there are slots, and all of it if a slot is left over. */
  ghost predicate Vectored(slices: (Bytes, nat) -> seq<Bytes>) {
    forall b: Bytes, n: nat ::
      && |slices(b, n)| <= n
      && Flatten(slices(b, n)) <= b
      && (|slices(b, n)| < n ==> Flatten(slices(b, n)) == b)
  }

  ghost predicate NoEmptySlices(slices: (Bytes, nat) -> seq<Bytes>) {
    forall b: Bytes, n: nat, i :: 0 <= i < |slices(b, n)| ==> slices(b, n)[i] != []
  }

  /** A contiguous buffer fills one slot, if it has anything left. */
  lemma OneSliceIsVectored()
    ensures var one := (b: Bytes, n: nat) => if n == 0 || b == [] then [] else [b];
            Vectored(one) && NoEmptySlices(one)
  {
    forall b: Bytes ensures Flatten([b]) == b { assert Flatten([b]) == b + []; }
  }

  class BufList {
    var bufs: seq<Bytes>

    constructor ()
      ensures Content() == [] && Valid()
    {
      bufs := [];
    }

    function Content(): Bytes
      reads this
    {
      Flatten(bufs)
    }

    /** Callers push only buffers with something left, and no operation leaves an empty one behind. */
    ghost predicate Valid()
      reads this
    {
      forall i :: 0 <= i < |bufs| ==> bufs[i] != []
    }

    method Push(buf: Bytes)
      requires Valid() && buf != []
      modifies this
      ensures Valid() && Content() == old(Content()) + buf
    {
      FlattenConcat(bufs, [buf]);
      assert Flatten([buf]) == buf + [];
      bufs := bufs + [buf];
    }

    method Remaining() returns (n: nat)
      ensures n == |Content()|
    {
      n := 0;
      for i := 0 to |bufs|
        invariant n == |Flatten(bufs[..i])|
      {
        FlattenPrefix(bufs, i);
        n := n + |bufs[i]|;
      }
      assert bufs[..|bufs|] == bufs;
    }

    /** The first buffer: a prefix of the content, empty only at the end. */
    method Chunk() returns (c: Bytes)
      requires Valid()
      ensures c <= Content() && (c == [] ==> Content() == []) && (bufs != [] ==> c == bufs[0])
    {
      c := if bufs == [] then [] else bufs[0];
    }

    method Advance(cnt: nat)
      requires Valid() && cnt <= |Content()|
      modifies this
      ensures Valid() && Content() == old(Content())[cnt..]
    {
      var left: nat := cnt;
      while left > 0
        invariant Valid() && left <= |Content()|
        invariant Content()[left..] == old(Content())[cnt..]
      {
        var front := bufs[0];
        var rest := Flatten(bufs[1..]);
        if |front| > left {
          assert (front + rest)[left..] == front[left..] + rest;
          bufs := bufs[0 := front[left..]];
          return;
        }
        assert (front + rest)[left..] == rest[left - |front|..];
        left := left - |front|;
        bufs := bufs[1..];
      }
      assert Content()[0..] == Content();
    }

    /** Up to `slots` slices, which are the start of the content, and all of it if a slot is left over. An inner
        buffer may fill several slots; `slices` is what it does. */
    method ChunksVectored(slots: nat, slices: (Bytes, nat) -> seq<Bytes>) returns (iov: seq<Bytes>)
      requires Valid() && Vectored(slices)
      ensures |iov| <= slots && Flatten(iov) <= Content()
      ensures |iov| < slots ==> Flatten(iov) == Content()
      ensures NoEmptySlices(slices) ==> forall i :: 0 <= i < |iov| ==> iov[i] != []
    {
      iov := [];
      if slots == 0 {
        return;
      }
      var i := 0;
      while i < |bufs|
        invariant 0 <= i <= |bufs| && |iov| < slots && Flatten(iov) == Flatten(bufs[..i])
        invariant NoEmptySlices(slices) ==> forall j :: 0 <= j < |iov| ==> iov[j] != []
      {
        var more := slices(bufs[i], slots - |iov|);
        FlattenConcat(iov, more);
        FlattenPrefix(bufs, i);
        FlattenPrefix(bufs, i + 1);
        PrefixOfMore(Flatten(iov), Flatten(more), bufs[i], Flatten(bufs[i + 1..]));
        iov := iov + more;
        i := i + 1;
        if |iov| == slots {
          return;
        }
      }
      assert bufs[..|bufs|] == bufs;
    }

    /** Copying chunk by chunk, as `BytesMut::put` does from a limited view of the list. */
    method CopyThrough(len: nat) returns (b: Bytes)
      requires Valid() && len <= |Content()|
      modifies this
      ensures Valid() && b + Content() == old(Content()) && |b| == len
    {
      b := [];
      while |b| < len
        invariant Valid() && |b| <= len
        invariant b + Content() == old(Content())
      {
        var chunk := Chunk();
        var take := if |chunk| < len - |b| then chunk else chunk[..len - |b|];
        assert take == Content()[..|take|];
        MovePrefix(b, Content(), |take|);
        Advance(|take|);
        b := b + take;
      }
    }

    /** All three paths give the first `len` bytes and keep the rest. */
    method CopyToBytes(len: nat) returns (b: Bytes)
      requires Valid() && len <= |Content()|
      modifies this
      ensures Valid() && b == old(Content())[..len] && Content() == old(Content())[len..]
    {
      if bufs != [] && |bufs[0]| == len {
        b := bufs[0];
        bufs := bufs[1..];
      } else if bufs != [] && |bufs[0]| > len {
        b := bufs[0][..len];
        assert (bufs[0] + Flatten(bufs[1..]))[len..] == bufs[0][len..] + Flatten(bufs[1..]);
        bufs := bufs[0 := bufs[0][len..]];
      } else {
        b := CopyThrough(len);
      }
    }
  }
}
