/** The body of a publish request: two length-prefixed parts, built by the client and cut up by the server. */
module PublishFrame {
  import opened Bytes
  import opened Wrappers

  /** The refusals of the parser, each a 400 response. */
  datatype FrameError = MissingBody | Truncated | CrateDataTruncated

  function Frame(json: seq<Byte>, tarball: seq<Byte>): seq<Byte>
    requires |json| < U32_LIMIT && |tarball| < U32_LIMIT
  {
    Le32(|json|) + json + Le32(|tarball|) + tarball
  }

  /** A body is the frame of `json` and `tarball`, then `rest`, with a byte left after the second length. */
  ghost predicate IsFramed(body: seq<Byte>, json: seq<Byte>, tarball: seq<Byte>, rest: seq<Byte>) {
    |json| < U32_LIMIT && |tarball| < U32_LIMIT && |tarball| + |rest| > 0 &&
    body == Frame(json, tarball) + rest
  }

  method CopyFromSlice(buf: array<Byte>, offset: nat, source: seq<Byte>)
    requires offset + |source| <= buf.Length
    modifies buf
    ensures buf[..] == old(buf[..])[..offset] + source + old(buf[..])[offset + |source|..]
  {
    for i := 0 to |source|
      invariant forall k | 0 <= k < buf.Length ::
                  buf[k] == if offset <= k < offset + i then source[k - offset] else old(buf[k])
    {
      buf[offset + i] := source[i];
    }
  }

  /** A buffer written part by part is the parts, one after the other. */
  lemma FourWrites(a: seq<Byte>, b: seq<Byte>, c: seq<Byte>, d: seq<Byte>, one: seq<Byte>, two: seq<Byte>,
                   three: seq<Byte>, four: seq<Byte>)
    requires |a| == |c| == 4 && |one| == 8 + |b| + |d| && one[..4] == a
    requires two == one[..4] + b + one[4 + |b|..]
    requires three == two[..4 + |b|] + c + two[8 + |b|..]
    requires four == three[..8 + |b|] + d + three[8 + |b| + |d|..]
    ensures four == a + b + c + d
  {
    assert two[..4 + |b|] == a + b;
    assert three[..8 + |b|] == a + b + c;
    assert three[8 + |b| + |d|..] == [];
  }

  /** The client's buffer. `u32::try_from(..).unwrap()` panics on lengths that do not fit. */
  method BuildFrame(serialized: seq<Byte>, tarball: seq<Byte>) returns (buf: array<Byte>)
    requires |serialized| < U32_LIMIT && |tarball| < U32_LIMIT
    ensures fresh(buf) && buf[..] == Frame(serialized, tarball)
    ensures var j := |serialized|;
            buf.Length == 8 + j + |tarball| && LittleEndian(buf[..4], j) && buf[4..4 + j] == serialized &&
            LittleEndian(buf[4 + j..8 + j], |tarball|) && buf[8 + j..] == tarball
  {
    var tarballLenOff := 4 + |serialized|;
    var tarballOff := 4 + tarballLenOff;
    buf := new Byte[tarballOff + |tarball|](_ => 0);
    CopyFromSlice(buf, 0, Le32(|serialized|));
    ghost var one := buf[..];
    CopyFromSlice(buf, 4, serialized);
    ghost var two := buf[..];
    CopyFromSlice(buf, tarballLenOff, Le32(|tarball|));
    ghost var three := buf[..];
    CopyFromSlice(buf, tarballOff, tarball);
    FourWrites(Le32(|serialized|), serialized, Le32(|tarball|), tarball, one, two, three, buf[..]);
    FrameBytes(serialized, tarball);
  }

  /** The server's parser takes exactly the framed bodies, and reads the two parts of each. */
  method ParseFrame(request: seq<Byte>) returns (r: Result<(seq<Byte>, seq<Byte>), FrameError>)
    ensures forall json, tarball, rest | IsFramed(request, json, tarball, rest) :: r == Ok((json, tarball))
    ensures r.Ok? ==> exists rest :: IsFramed(request, r.value.0, r.value.1, rest)
    ensures r == Err(MissingBody) <==> |request| <= 4
  {
    forall json, tarball, rest | IsFramed(request, json, tarball, rest)
      ensures FrameParts(request, json, tarball)
    {
      FrameIsCut(request, json, tarball, rest);
    }
    var body := request;
    if |body| <= 4 {
      return Err(MissingBody);
    }
    var jsonLenBytes := body[..4];
    body := body[4..];
    var jsonLen := FromLe32(jsonLenBytes);
    if |body| < jsonLen {
      return Err(Truncated);
    }
    var jsonBytes := body[..jsonLen];
    body := body[jsonLen..];
    if |body| <= 4 {
      return Err(Truncated);
    }
    var crateLenBytes := body[..4];
    body := body[4..];
    var crateLen := FromLe32(crateLenBytes);
    if |body| < crateLen {
      return Err(CrateDataTruncated);
    }
    var crateBytes := body[..crateLen];
    body := body[crateLen..];
    FromLe32RoundTrip(jsonLenBytes);
    FromLe32RoundTrip(crateLenBytes);
    assert request == Frame(jsonBytes, crateBytes) + body;
    assert IsFramed(request, jsonBytes, crateBytes, body);
    return Ok((jsonBytes, crateBytes));
  }

  /** Where the parts of a framed body lie, as offsets the parser computes. */
  ghost predicate FrameParts(body: seq<Byte>, json: seq<Byte>, tarball: seq<Byte>) {
    |body| > 8 + |json| && FromLe32(body[..4]) == |json| && body[4..][..|json|] == json &&
    var tail := body[4..][|json|..];
    |tail| > 4 && FromLe32(tail[..4]) == |tarball| && |tail| >= 4 + |tarball| && tail[4..][..|tarball|] == tarball
  }

  lemma FrameIsCut(body: seq<Byte>, json: seq<Byte>, tarball: seq<Byte>, rest: seq<Byte>)
    requires IsFramed(body, json, tarball, rest)
    ensures FrameParts(body, json, tarball)
  {
    Le32RoundTrip(|json|);
    Le32RoundTrip(|tarball|);
    assert body[..4] == Le32(|json|);
    assert body[4..] == json + (Le32(|tarball|) + tarball + rest);
    var tail := body[4..][|json|..];
    assert tail == Le32(|tarball|) + (tarball + rest);
    assert tail[..4] == Le32(|tarball|);
    assert tail[4..] == tarball + rest;
  }

  /** What the server makes of a client's request: it reads back both parts, unless the tarball is empty. */
  method Exchange(json: seq<Byte>, tarball: seq<Byte>) returns (r: Result<(seq<Byte>, seq<Byte>), FrameError>)
    requires |json| < U32_LIMIT && |tarball| < U32_LIMIT
    ensures r == Ok((json, tarball)) <==> tarball != []
    ensures tarball == [] ==> r.Err?
  {
    var buf := BuildFrame(json, tarball);
    r := ParseFrame(buf[..]);
    if tarball != [] {
      assert Frame(json, tarball) + [] == Frame(json, tarball);
      assert IsFramed(buf[..], json, tarball, []);
    } else {
      forall j, t, rest {
        EmptyTarballNotFramed(json, j, t, rest);
      }
    }
  }

  /** With an empty tarball nothing follows the second length, and the server refuses that. */
  lemma EmptyTarballNotFramed(json: seq<Byte>, j: seq<Byte>, t: seq<Byte>, rest: seq<Byte>)
    requires |json| < U32_LIMIT
    ensures !IsFramed(Frame(json, []), j, t, rest)
  {
    var body := Frame(json, []);
    Le32RoundTrip(|json|);
    assert body[..4] == Le32(|json|);
    if IsFramed(body, j, t, rest) {
      FrameIsCut(body, j, t, rest);
    }
  }

  /** The frame byte by byte: each length is little-endian and stands before its part. */
  lemma FrameBytes(json: seq<Byte>, tarball: seq<Byte>)
    requires |json| < U32_LIMIT && |tarball| < U32_LIMIT
    ensures var f, j := Frame(json, tarball), |json|;
            |f| == 8 + j + |tarball| && LittleEndian(f[..4], j) && f[4..4 + j] == json &&
            LittleEndian(f[4 + j..8 + j], |tarball|) && f[8 + j..] == tarball
  {
    Le32LittleEndian(|json|);
    Le32LittleEndian(|tarball|);
    FourParts(Le32(|json|), json, Le32(|tarball|), tarball);
  }

  lemma FourParts(a: seq<Byte>, b: seq<Byte>, c: seq<Byte>, d: seq<Byte>)
    requires |a| == 4 && |c| == 4
    ensures var all, j := a + b + c + d, |b|;
            all[..4] == a && all[4..4 + j] == b && all[4 + j..8 + j] == c && all[8 + j..] == d
  {
  }
}
