/**
 * The byte layout of one part of the `multipart/x-mixed-replace` stream
 * (the boundary-delimiter form of section 5.1.1 of RFC 2046): a dash-boundary,
 * one `Content-Type: image/jpeg` header, an empty line, the JPEG bytes and a
 * line break. The line break closing one part and the dash-boundary opening the
 * next together form the RFC's delimiter `CRLF "--" boundary`.
 */
module Framing {
  import opened Wrappers
  import opened Octets

  /** The Content-Type the stream response announces, with its boundary parameter. */
  const StreamContentType: string := "multipart/x-mixed-replace; boundary=frame"
  const BoundaryParameter: string := "; boundary="

  /** The dash-boundary the generator writes at the start of every part. */
  const DashBoundary: Bytes := Ascii("--frame")
  const PartHeaders: Bytes := Ascii("\r\nContent-Type: image/jpeg\r\n\r\n")
  const Crlf: Bytes := Ascii("\r\n")

  /** Everything written before the frame bytes of a part. */
  const PartPrefix: Bytes := DashBoundary + PartHeaders

  /** Bytes a part adds around its frame. */
  const PartOverhead: nat := 39

  /** The chunk the stream writes for one frame. */
  function Part(frame: Bytes): (p: Bytes)
    ensures |p| == |frame| + PartOverhead
    ensures p[..|PartPrefix|] == PartPrefix
    ensures p[|PartPrefix|..|p| - |Crlf|] == frame
    ensures p[|p| - |Crlf|..] == Crlf
  {
    PartPrefix + frame + Crlf
  }

  /** Recovers the frame of a chunk by removing the fixed prefix and suffix. */
  function ParsePart(p: Bytes): (r: Option<Bytes>)
    ensures r.Some? ==> |p| == |r.value| + PartOverhead
  {
    if |p| >= PartOverhead && p[..|PartPrefix|] == PartPrefix && p[|p| - |Crlf|..] == Crlf
    then Some(p[|PartPrefix|..|p| - |Crlf|])
    else None
  }

  /** Removing the fixed prefix and suffix recovers the frame. */
  lemma ParsePartOfPart(frame: Bytes)
    ensures ParsePart(Part(frame)) == Some(frame)
  {
  }

  /** Every chunk the parser accepts is the part of the frame it returns. */
  lemma PartOfParsePart(p: Bytes)
    requires ParsePart(p).Some?
    ensures Part(ParsePart(p).value) == p
  {
  }

  /** Different frames are written as different chunks. */
  lemma PartInjective(f: Bytes, g: Bytes)
    requires Part(f) == Part(g)
    ensures f == g
  {
  }

  /** The response body after the given frames were written, one part each. */
  function Body(frames: seq<Bytes>): (b: Bytes)
    ensures |b| == |Flatten(frames)| + PartOverhead * |frames|
  {
    if |frames| == 0 then [] else Body(frames[..|frames| - 1]) + Part(frames[|frames| - 1])
  }

  /** The frame bytes of a sequence of frames, back to back. */
  function Flatten(frames: seq<Bytes>): (r: Bytes)
  {
    if |frames| == 0 then [] else Flatten(frames[..|frames| - 1]) + frames[|frames| - 1]
  }

  /** A body is its first part followed by the body of the remaining frames. */
  lemma {:induction false} BodyCons(f: Bytes, frames: seq<Bytes>)
    ensures Body([f] + frames) == Part(f) + Body(frames)
    decreases |frames|
  {
    var all := [f] + frames;
    if |frames| > 0 {
      var m := |frames|;
      assert all[..|all| - 1] == [f] + frames[..m - 1];
      assert all[|all| - 1] == frames[m - 1];
      BodyCons(f, frames[..m - 1]);
    } else {
      assert all[..|all| - 1] == [];
    }
  }

  lemma SuffixOfConcat(a: Bytes, p: Bytes, n: nat)
    requires n <= |p|
    ensures (a + p)[|a + p| - n..] == p[|p| - n..]
  {
  }

  /** A non-empty body ends with the line break that closes its last part. */
  lemma BodyEndsWithCrlf(frames: seq<Bytes>)
    requires |frames| > 0
    ensures var b := Body(frames); |b| >= |Crlf| && b[|b| - |Crlf|..] == Crlf
  {
    var p := Part(frames[|frames| - 1]);
    var front := Body(frames[..|frames| - 1]);
    assert Body(frames) == front + p;
    SuffixOfConcat(front, p, |Crlf|);
  }

  /**
   * Every part after the first begins right after the line break that closed
   * the previous one, so the two bytes before it and its first bytes spell the
   * RFC 2046 delimiter `CRLF "--frame"`.
   */
  lemma DelimiterBeforeEachLaterPart(frames: seq<Bytes>, f: Bytes)
    requires |frames| > 0
    ensures var b := Body(frames);
            |b| >= |Crlf| &&
            (b + Part(f))[|b| - |Crlf|..|b| + |DashBoundary|] == Crlf + DashBoundary
  {
    var b := Body(frames);
    BodyEndsWithCrlf(frames);
    var p := Part(f);
    assert |p| >= |DashBoundary|;
    assert p[..|DashBoundary|] == DashBoundary by {
      assert p[..|PartPrefix|] == PartPrefix;
      assert PartPrefix[..|DashBoundary|] == DashBoundary;
    }
    JunctionSlice(b, p, |Crlf|, |DashBoundary|);
  }

  /** The bytes around the junction of two sequences: the last m of the first, then the first n of the second. */
  lemma JunctionSlice(a: Bytes, b: Bytes, m: nat, n: nat)
    requires m <= |a| && n <= |b|
    ensures (a + b)[|a| - m..|a| + n] == a[|a| - m..] + b[..n]
  {
    var s := (a + b)[|a| - m..|a| + n];
    assert |s| == m + n;
    forall i | 0 <= i < m + n
      ensures s[i] == (a[|a| - m..] + b[..n])[i]
    {
      if i < m {
        assert s[i] == a[|a| - m + i];
      } else {
        assert s[i] == b[i - m];
      }
    }
  }

  /**
   * The two literals agree: the dash-boundary written in every part is `--`
   * followed by the value of the `boundary` parameter that ends the Content-Type.
   */
  lemma BoundaryMatchesContentType()
    ensures var cut := |StreamContentType| - (|DashBoundary| - 2);
      && StreamContentType[cut - |BoundaryParameter|..cut] == BoundaryParameter
      && DashBoundary == Ascii("--") + Ascii(StreamContentType[cut..])
  {
  }
}
