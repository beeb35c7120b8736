/** The signed cookie codec of nestor.py (`encode_cookie`, `decode_cookie`).

    A cookie carries a JSON list of path prefixes. Encoding frames the JSON
    bytes as `HMAC-SHA256(key, json) ++ "|" ++ json` and base64-encodes the
    frame. Decoding base64-decodes, splits the frame at the FIRST `|` byte,
    recomputes the MAC over the part after it and parses that part as JSON.

    HMAC-SHA256, the JSON serialiser and base64 are foreign code: they are
    the function-valued fields of `Primitives`, constrained only by the
    32-byte digest length (a type) and the JSON and base64 round trips
    (`Lawful`). */
module Cookie {
  import opened Wrappers

  type Byte = bv8

  /** The frame separator `b"|"`. */
  const Separator: Byte := 0x7C

  /** Length of an HMAC-SHA256 digest in bytes. */
  const DigestLength: nat := 32

  type Digest = s: seq<Byte> | |s| == DigestLength witness seq(DigestLength, _ => 0)

  /** The value `json.loads` produced: a list of strings, or any other JSON
      value (object, number, string, `null`, ...). */
  datatype Json = Strings(items: seq<string>) | NotList

  datatype Primitives = Primitives(
    /** `hmac.new(key, data, sha256).digest()` */
    hmac: (seq<Byte>, seq<Byte>) -> Digest,
    /** `json.dumps(items).encode("utf-8")` */
    dumps: seq<string> -> seq<Byte>,
    /** `json.loads(data.decode("utf-8"))`; `None` when either step raises */
    loads: seq<Byte> -> Option<Json>,
    /** `base64.b64encode(raw).decode("utf8")` */
    b64encode: seq<Byte> -> string,
    /** `base64.b64decode(text.encode("utf8"))`; `None` when it raises */
    b64decode: string -> Option<seq<Byte>>)

  /** What the model assumes of the foreign primitives: parsing what the
      serialiser wrote gives back the list, and base64 decoding undoes base64
      encoding. */
  ghost predicate Lawful(p: Primitives) {
    && (forall items :: p.loads(p.dumps(items)) == Some(Strings(items)))
    && (forall raw :: p.b64decode(p.b64encode(raw)) == Some(raw))
  }

  /** How a decoder separates the digest from the payload. The source scans
      for the first separator; the corrected decoder slices at the fixed
      digest length. */
  datatype Framing = SplitAtFirstSeparator | SliceAtDigestLength

  /** `raw.split(b"|", 1)` unpacked into exactly two parts: `None` when there
      is no separator (the unpacking raises). */
  function SplitOnce(raw: seq<Byte>): (r: Option<(seq<Byte>, seq<Byte>)>)
    ensures r.None? <==> Separator !in raw
    ensures r.Some? ==> raw == r.value.0 + [Separator] + r.value.1
    ensures r.Some? ==> Separator !in r.value.0
  {
    if |raw| == 0 then None
    else if raw[0] == Separator then Some(([], raw[1..]))
    else
      match SplitOnce(raw[1..])
      case None => None
      case Some((head, tail)) =>
        assert raw == [raw[0]] + raw[1..];
        Some(([raw[0]] + head, tail))
  }

  /** Splitting a joined pair gives the pair back exactly when the head is
      free of separators. */
  lemma {:induction false} SplitOnceOfJoin(head: seq<Byte>, tail: seq<Byte>)
    requires Separator !in head
    ensures SplitOnce(head + [Separator] + tail) == Some((head, tail))
  {
    var raw := head + [Separator] + tail;
    if |head| > 0 {
      assert raw[0] == head[0];
      assert raw[1..] == head[1..] + [Separator] + tail;
      SplitOnceOfJoin(head[1..], tail);
      assert [head[0]] + head[1..] == head;
    }
  }

  /** When the head itself contains a separator, the split happens inside the
      head: the recovered head is strictly shorter. */
  lemma {:induction false} SplitOnceInsideHead(head: seq<Byte>, tail: seq<Byte>)
    requires Separator in head
    ensures SplitOnce(head + [Separator] + tail).Some?
    ensures |SplitOnce(head + [Separator] + tail).value.0| < |head|
  {
    var raw := head + [Separator] + tail;
    assert raw[0] == head[0];
    if head[0] != Separator {
      assert head == [head[0]] + head[1..];
      assert Separator in head[1..];
      assert raw[1..] == head[1..] + [Separator] + tail;
      SplitOnceInsideHead(head[1..], tail);
    }
  }

  /** A signed frame whose digest has no separator byte is split right after
      the digest. */
  lemma SplitOfSignedFrame(p: Primitives, key: seq<Byte>, raw: seq<Byte>)
    ensures SignedFrame(p, key, raw) && Separator !in raw[..DigestLength] ==>
      SplitOnce(raw) == Some((raw[..DigestLength], Payload(raw)))
  {
    if SignedFrame(p, key, raw) && Separator !in raw[..DigestLength] {
      SplitOnceOfJoin(raw[..DigestLength], Payload(raw));
    }
  }

  /** The byte layout `encode_cookie` builds before base64. */
  function Frame(digest: Digest, data: seq<Byte>): (raw: seq<Byte>)
    ensures |raw| == DigestLength + 1 + |data|
    ensures raw[..DigestLength] == digest
    ensures raw[DigestLength] == Separator
    ensures raw[DigestLength + 1..] == data
  {
    digest + [Separator] + data
  }

  /** The part of a frame after the digest and the separator slot. */
  function Payload(raw: seq<Byte>): seq<Byte>
    requires |raw| > DigestLength
  {
    raw[DigestLength + 1..]
  }

  /** `raw` is exactly the frame the encoder produces for its own payload:
      the MAC of the payload, the separator, the payload. */
  ghost predicate SignedFrame(p: Primitives, key: seq<Byte>, raw: seq<Byte>) {
    |raw| > DigestLength && raw == Frame(p.hmac(key, Payload(raw)), Payload(raw))
  }

  /** The MAC check of `decode_cookie` as written: split at the first
      separator, then compare the head with the MAC of the tail. It accepts a
      signed frame only when the digest has no separator byte in it. */
  function SplitAndVerify(p: Primitives, key: seq<Byte>, raw: seq<Byte>): (data: Option<seq<Byte>>)
    ensures data.Some? <==> SignedFrame(p, key, raw) && Separator !in raw[..DigestLength]
    ensures data.Some? ==> data.value == Payload(raw)
  {
    match SplitOnce(raw)
    case None => None
    case Some((digest, data)) =>
      if digest == p.hmac(key, data) then
        assert raw[..DigestLength] == digest && raw[DigestLength + 1..] == data;
        Some(data)
      else
        SplitOfSignedFrame(p, key, raw);
        None
  }

  /** The corrected MAC check: the digest is the first `DigestLength` bytes,
      one separator byte follows, the rest is the payload. It accepts exactly
      the signed frames. */
  function SliceAndVerify(p: Primitives, key: seq<Byte>, raw: seq<Byte>): (data: Option<seq<Byte>>)
    ensures data.Some? <==> SignedFrame(p, key, raw)
    ensures data.Some? ==> data.value == Payload(raw)
  {
    if |raw| <= DigestLength || raw[DigestLength] != Separator then None
    else if raw[..DigestLength] == p.hmac(key, Payload(raw)) then
      assert raw == raw[..DigestLength] + [Separator] + Payload(raw);
      Some(Payload(raw))
    else None
  }

  function Unframe(framing: Framing, p: Primitives, key: seq<Byte>, raw: seq<Byte>): Option<seq<Byte>> {
    match framing
    case SplitAtFirstSeparator => SplitAndVerify(p, key, raw)
    case SliceAtDigestLength => SliceAndVerify(p, key, raw)
  }

  /** `encode_cookie(items)`. Before base64, an encoded cookie is the 32 MAC
      bytes of the JSON, the separator, then the JSON. */
  function EncodeCookie(p: Primitives, key: seq<Byte>, items: seq<string>): (cookie: string)
    ensures Lawful(p) ==> p.b64decode(cookie).Some?
    ensures Lawful(p) ==> var raw := p.b64decode(cookie).value;
      && |raw| == DigestLength + 1 + |p.dumps(items)|
      && raw[..DigestLength] == p.hmac(key, p.dumps(items))
      && raw[DigestLength] == Separator
      && raw[DigestLength + 1..] == p.dumps(items)
  {
    var data := p.dumps(items);
    p.b64encode(Frame(p.hmac(key, data), data))
  }

  /** `decode_cookie(cookie)`; `None` stands for every exception it raises
      (missing cookie, bad base64, no separator, MAC mismatch, bad UTF-8 or
      JSON). A successful decode always comes from a signed frame whose digest
      is the MAC of the parsed payload; with the source's framing that
      digest is also free of separator bytes. */
  function DecodeCookie(p: Primitives, key: seq<Byte>, framing: Framing, cookie: Option<string>): (r: Option<Json>)
    ensures cookie.None? ==> r.None?
    ensures r.Some? ==>
      && cookie.Some?
      && p.b64decode(cookie.value).Some?
      && SignedFrame(p, key, p.b64decode(cookie.value).value)
      && r == p.loads(Payload(p.b64decode(cookie.value).value))
    ensures r.Some? && framing == SplitAtFirstSeparator ==>
      Separator !in p.b64decode(cookie.value).value[..DigestLength]
    ensures cookie.Some? && p.b64decode(cookie.value).Some? && Separator !in p.b64decode(cookie.value).value ==>
      r.None?
    ensures
      (&& cookie.Some?
       && p.b64decode(cookie.value).Some?
       && SignedFrame(p, key, p.b64decode(cookie.value).value)
       && (framing == SliceAtDigestLength || Separator !in p.b64decode(cookie.value).value[..DigestLength]))
      ==> r == p.loads(Payload(p.b64decode(cookie.value).value))
  {
    match cookie
    case None => None
    case Some(text) =>
      match p.b64decode(text)
      case None => None
      case Some(raw) =>
        match Unframe(framing, p, key, raw)
        case None => None
        case Some(data) => p.loads(data)
  }

  /** The scanning decoder agrees with the corrected one exactly when the
      digest slot holds no separator byte, and fails otherwise. */
  lemma SplitAgreesWithSlice(p: Primitives, key: seq<Byte>, raw: seq<Byte>)
    ensures SplitAndVerify(p, key, raw) ==
      if |raw| > DigestLength && Separator !in raw[..DigestLength] then SliceAndVerify(p, key, raw) else None
  {
  }

  /** Round trip of the source's codec, both ways: a freshly encoded cookie
      decodes to its list when its MAC has no separator byte, and fails to
      decode when it has one (the first-separator split then yields a digest
      shorter than 32 bytes, which can never equal a MAC). */
  lemma RoundTripAsWritten(p: Primitives, key: seq<Byte>, items: seq<string>)
    requires Lawful(p)
    ensures DecodeCookie(p, key, SplitAtFirstSeparator, Some(EncodeCookie(p, key, items))) ==
      if Separator in p.hmac(key, p.dumps(items)) then None else Some(Strings(items))
  {
  }

  /** The defect on its own: when the MAC of the JSON contains the separator
      byte, the cookie the server just issued is rejected. */
  lemma SeparatorInDigestRejectsFreshCookie(p: Primitives, key: seq<Byte>, items: seq<string>)
    requires Lawful(p)
    requires Separator in p.hmac(key, p.dumps(items))
    ensures DecodeCookie(p, key, SplitAtFirstSeparator, Some(EncodeCookie(p, key, items))).None?
  {
    RoundTripAsWritten(p, key, items);
  }

  /** Round trip of the corrected codec: every freshly encoded cookie decodes
      to its list. */
  lemma RoundTripCorrected(p: Primitives, key: seq<Byte>, items: seq<string>)
    requires Lawful(p)
    ensures DecodeCookie(p, key, SliceAtDigestLength, Some(EncodeCookie(p, key, items))) == Some(Strings(items))
  {
  }

  /** Tampering with the header is always detected, under either framing:
      changing any byte among the 32 digest bytes and the separator of a
      signed frame makes the MAC check fail. Tampering with the payload is
      not covered: it needs collision resistance of HMAC. */
  lemma HeaderTamperRejected(framing: Framing, p: Primitives, key: seq<Byte>, data: seq<Byte>, i: nat, b: Byte)
    requires i <= DigestLength
    requires b != Frame(p.hmac(key, data), data)[i]
    ensures Unframe(framing, p, key, Frame(p.hmac(key, data), data)[i := b]).None?
  {
  }
}
