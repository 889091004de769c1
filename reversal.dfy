/**
 * Reversal of the sample payload (`reverse1`, `reverse2`, `reverse3`): the
 * payload is a run of fixed-width frames, and the frames are emitted last to
 * first with the bytes inside each frame left in order.
 */
module Reversal {
  import opened Bytes

  /** Frame `j` (counting from 0) of a payload of `w`-byte frames. */
  function Frame(s: seq<Byte>, w: nat, j: nat): (f: seq<Byte>)
    requires (j + 1) * w <= |s|
    ensures |f| == w
  {
    s[j * w .. j * w + w]
  }

  /**
   * The whole `w`-byte frames of `s` in reverse order: the first frame goes
   * last. Bytes after the last whole frame are dropped.
   */
  function ReversedFrames(s: seq<Byte>, w: nat): (r: seq<Byte>)
    ensures |r| <= |s| && (w > 0 ==> |s| < |r| + w)
    decreases |s|
  {
    if w == 0 || |s| < w then [] else ReversedFrames(s[w..], w) + s[..w]
  }

  /** Multiplying by a frame width distributes over one more frame. */
  lemma MulSucc(a: nat, w: nat)
    ensures (a + 1) * w == a * w + w
  {
  }

  /** More frames never take fewer bytes. */
  lemma MulMono(a: nat, b: nat, w: nat)
    requires a <= b
    ensures a * w <= b * w
  {
  }

  /** A payload of whole frames keeps its length when reversed. */
  lemma {:induction false} ReversedFramesLength(s: seq<Byte>, n: nat, w: nat)
    requires |s| == n * w
    ensures |ReversedFrames(s, w)| == |s|
  {
    if n > 0 && w > 0 {
      MulSucc(n - 1, w);
      ReversedFramesLength(s[w..], n - 1, w);
    }
  }

  /** A frame that lies inside `a` is the same frame of `a + b`. */
  lemma FrameOfPrefix(a: seq<Byte>, b: seq<Byte>, w: nat, j: nat)
    requires (j + 1) * w <= |a|
    ensures Frame(a + b, w, j) == Frame(a, w, j)
  {
    MulSucc(j, w);
  }

  /** Dropping the first frame shifts every later frame down by one. */
  lemma FrameOfRest(s: seq<Byte>, w: nat, j: nat)
    requires w <= |s| && (j + 1) * w <= |s| - w
    ensures (j + 2) * w <= |s| && Frame(s[w..], w, j) == Frame(s, w, j + 1)
  {
    MulSucc(j, w);
    MulSucc(j + 1, w);
  }

  /** The frame just past `a` is the start of `b`. */
  lemma FrameAfterPrefix(a: seq<Byte>, b: seq<Byte>, w: nat, j: nat)
    requires |a| == j * w && w <= |b|
    ensures (j + 1) * w <= |a + b| && Frame(a + b, w, j) == b[..w]
  {
    MulSucc(j, w);
  }

  /** Output frame `j` is input frame `n - 1 - j`, byte for byte. */
  lemma {:induction false} ReversedFramesAt(s: seq<Byte>, n: nat, w: nat, j: nat)
    requires |s| == n * w
    requires j < n
    ensures (j + 1) * w <= |s| && (n - j) * w <= |s|
    ensures |ReversedFrames(s, w)| == |s|
    ensures Frame(ReversedFrames(s, w), w, j) == Frame(s, w, n - 1 - j)
  {
    MulSucc(n - 1, w);
    MulMono(j + 1, n, w);
    MulMono(n - j, n, w);
    ReversedFramesLength(s, n, w);
    if w > 0 {
      var rest := ReversedFrames(s[w..], w);
      ReversedFramesLength(s[w..], n - 1, w);
      if j < n - 1 {
        MulMono(j + 1, n - 1, w);
        MulMono(n - 1 - j, n - 1, w);
        ReversedFramesAt(s[w..], n - 1, w, j);
        FrameOfPrefix(rest, s[..w], w, j);
        FrameOfRest(s, w, n - 2 - j);
      } else {
        FrameAfterPrefix(rest, s[..w], w, j);
        MulSucc(0, w);
      }
    }
  }

  /** Reversing whole frames followed by more bytes: the parts swap, each reversed. */
  lemma {:induction false} ReversedFramesAppend(a: seq<Byte>, na: nat, b: seq<Byte>, w: nat)
    requires |a| == na * w && w > 0
    ensures ReversedFrames(a + b, w) == ReversedFrames(b, w) + ReversedFrames(a, w)
  {
    if na == 0 {
      assert a + b == b;
    } else {
      MulSucc(na - 1, w);
      assert (a + b)[w..] == a[w..] + b;
      assert (a + b)[..w] == a[..w];
      ReversedFramesAppend(a[w..], na - 1, b, w);
    }
  }

  /** A single frame is its own reversal. */
  lemma OneFrame(f: seq<Byte>, w: nat)
    requires |f| == w
    ensures ReversedFrames(f, w) == f
  {
    if w > 0 {
      assert f[w..] == [];
    }
  }

  /** Reversing twice with the same frame width gives back the payload. */
  lemma {:induction false} ReversedFramesInvolution(s: seq<Byte>, n: nat, w: nat)
    requires |s| == n * w
    ensures ReversedFrames(ReversedFrames(s, w), w) == s
  {
    if n > 0 && w > 0 {
      MulSucc(n - 1, w);
      var rest := ReversedFrames(s[w..], w);
      ReversedFramesLength(s[w..], n - 1, w);
      ReversedFramesAppend(rest, n - 1, s[..w], w);
      OneFrame(s[..w], w);
      ReversedFramesInvolution(s[w..], n - 1, w);
      assert s[..w] + s[w..] == s;
    }
  }

  /**
   * `reverse1`/`reverse2`/`reverse3` for elements of `w` bytes: `j` runs up
   * from the first output frame while `i` runs down from the last input
   * frame; each step copies one whole frame. The input array is read, not
   * modified.
   */
  method ReverseFrames(data: array<Byte>, n: nat, w: nat) returns (reversed: array<Byte>)
    requires data.Length == n * w && w > 0
    ensures fresh(reversed) && reversed.Length == data.Length
    ensures reversed[..] == ReversedFrames(data[..], w)
  {
    reversed := new Byte[n * w];
    var i: int := n - 1;
    var j: nat := 0;
    var out, next := 0, n * w;  // byte offsets of output frame j and of input frame i + 1
    while i >= 0
      invariant -1 <= i && i == n - 1 - j
      invariant next == (i + 1) * w && out + next == n * w
      invariant reversed[..out] == ReversedFrames(data[next..], w)
    {
      MulSucc(i, w);
      var src := next - w;
      CopyElement(data, src, reversed, out, w);
      assert data[src..][w..] == data[next..] && data[src..][..w] == data[src .. src + w];
      i, j := i - 1, j + 1;
      out, next := out + w, src;
    }
    assert data[..] == data[next..];
  }

  /** `reversedArray[j] = dataArray[i]` for an element of `w` bytes. */
  method CopyElement(from: array<Byte>, src: nat, to: array<Byte>, out: nat, w: nat)
    requires src + w <= from.Length && out + w <= to.Length && from != to
    modifies to
    ensures to[..out + w] == old(to[..out]) + from[src .. src + w]
    ensures to[out + w..] == old(to[out + w..])
  {
    forall k | 0 <= k < w {
      to[out + k] := from[src + k];
    }
    assert to[..out + w] == to[..out] + to[out .. out + w];
  }

  /**
   * Bytes that `fwrite(reversedArray, sizeof(T), sizeof(reversedArray), file)`
   * asks to write for `n` elements of `w` bytes: `sizeof(reversedArray)` is a
   * byte count, passed where an element count belongs.
   */
  function WriteCountAsWritten(n: nat, w: nat): (c: nat)
    ensures c == n * w <==> n == 0 || w <= 1
  {
    var bytes := n * w;
    assert n > 0 && w >= 2 ==> bytes * w > bytes by {
      if n > 0 && w >= 2 {
        assert bytes >= n;
        assert bytes * w >= bytes * 2;
      }
    }
    bytes * w
  }

  /** With 2- or 4-byte frames the write runs past the `n * w` bytes of the array. */
  lemma WriteOverrunsArray(n: nat, w: nat)
    requires n >= 1 && w >= 2
    ensures WriteCountAsWritten(n, w) >= 2 * (n * w) > n * w
  {
    assert (n * w) * w >= (n * w) * 2;
  }

  /** One stereo 16-bit frame: `reverse2` asks `fwrite` for 16 bytes of a 4-byte array. */
  lemma OneStereoFrameOverrun()
    ensures WriteCountAsWritten(1, 4) == 16
  {
  }

  /** Mono 8-bit samples 01 02 03 04 come out as 04 03 02 01. */
  lemma ReverseMono8Example()
    ensures ReversedFrames([1, 2, 3, 4], 1) == [4, 3, 2, 1]
  {
  }

  /** Two stereo 16-bit frames L1 R1 L2 R2 swap places, each pair kept whole. */
  lemma ReverseStereo16Example(l1: seq<Byte>, r1: seq<Byte>, l2: seq<Byte>, r2: seq<Byte>)
    requires |l1| == 2 && |r1| == 2 && |l2| == 2 && |r2| == 2
    ensures ReversedFrames(l1 + r1 + l2 + r2, 4) == l2 + r2 + l1 + r1
  {
    var first, second := l1 + r1, l2 + r2;
    assert l1 + r1 + l2 + r2 == first + second;
    ReversedFramesAppend(first, 1, second, 4);
    OneFrame(first, 4);
    OneFrame(second, 4);
  }
}
