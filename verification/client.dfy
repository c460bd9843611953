/** Request construction of the exchange client (main.py, `send_signed_request`
    and `send_public_request`): the signed query string, its signature and the
    request URL. HMAC-SHA256 (RFC 2104) is the parameter `mac`, the clock reading
    is the parameter `ts`, and `show` is Python's `str(float)`. Dispatch over HTTP
    is not part of this model. */
module Client {
  import opened Util
  import opened Quote
  import opened UrlEncode

  const BaseUrl: string := "https://api.binance.com"

  /** The digest of a keyed MAC: (secret, message) to digest bytes. */
  type Mac = (string, string) -> seq<byte>

  /** `.hexdigest()`: two lower-case hex digits per byte. */
  function HexDigest(d: seq<byte>): (h: string)
    ensures |h| == 2 * |d|
    ensures forall i :: 0 <= i < |h| ==> IsLowerHex(h[i])
  {
    if d == [] then []
    else [HexDigit(d[0] / 16, false), HexDigit(d[0] % 16, false)] + HexDigest(d[1..])
  }

  /** Distinct digests give distinct signatures: the hex rendering loses nothing. */
  lemma {:induction false} HexDigestInjective(d: seq<byte>, e: seq<byte>)
    requires HexDigest(d) == HexDigest(e)
    ensures d == e
  {
    if d != [] {
      var h := HexDigest(d);
      HexValueOfDigit(d[0] / 16, false);
      HexValueOfDigit(d[0] % 16, false);
      HexValueOfDigit(e[0] / 16, false);
      HexValueOfDigit(e[0] % 16, false);
      assert e != [];
      assert HexValue(h[0]) == Some(d[0] / 16) == Some(e[0] / 16);
      assert HexValue(h[1]) == Some(d[0] % 16) == Some(e[0] % 16);
      assert d[0] == e[0];
      assert HexDigest(d[1..]) == h[2..] == HexDigest(e[1..]);
      HexDigestInjective(d[1..], e[1..]);
      assert d == [d[0]] + d[1..] && e == [e[0]] + e[1..];
    }
  }

  /** `hashing(query_string)`: the hex MAC of the query string under the API secret. */
  function Signature(mac: Mac, secret: string, qs: string): (sig: string)
    ensures |sig| == 2 * |mac(secret, qs)|
    ensures forall i :: 0 <= i < |sig| ==> IsLowerHex(sig[i])
  {
    HexDigest(mac(secret, qs))
  }

  /** The query string `send_signed_request` signs at clock reading `ts`: it starts
      with the encoded payload and ends with `timestamp=<ts>`. */
  function SignedQuery(ps: Payload, show: real -> string, ts: nat): (q: string)
    ensures Encode(ps, show) <= q
    ensures q != []
  {
    var qs := Encode(ps, show);
    if qs != [] then qs + "&timestamp=" + Decimal(ts) else "timestamp=" + Decimal(ts)
  }

  /** The URL `send_signed_request` requests: the signed query after `?`, then the
      signature over exactly that query. */
  function SignedUrl(path: string, ps: Payload, show: real -> string, ts: nat,
                     secret: string, mac: Mac): (u: string)
    ensures BaseUrl + path + "?" + SignedQuery(ps, show, ts) <= u
  {
    var qs := SignedQuery(ps, show, ts);
    BaseUrl + path + "?" + qs + "&signature=" + Signature(mac, secret, qs)
  }

  /** The URL `send_public_request` requests: a `?` and the encoded payload follow
      the path only when the encoding is non-empty. */
  function PublicUrl(path: string, ps: Payload, show: real -> string): (u: string)
    ensures BaseUrl + path <= u
    ensures u == BaseUrl + path <==> Encode(ps, show) == []
  {
    var qs := Encode(ps, show);
    if qs != [] then BaseUrl + path + "?" + qs else BaseUrl + path
  }

  /** The position of the first `c` in `s`. */
  function FirstIndex(s: string, c: char): (r: Option<nat>)
    ensures r.None? <==> c !in s
    ensures r.Some? ==> r.value < |s| && s[r.value] == c && c !in s[..r.value]
  {
    if s == [] then None
    else if s[0] == c then Some(0)
    else match FirstIndex(s[1..], c)
      case None => None
      case Some(i) =>
        assert s[..i + 1] == [s[0]] + s[1..][..i];
        Some(i + 1)
  }

  /** The position of the last `c` in `s`. */
  function LastIndex(s: string, c: char): (r: Option<nat>)
    ensures r.None? <==> c !in s
    ensures r.Some? ==> r.value < |s| && s[r.value] == c && c !in s[r.value + 1..]
  {
    if s == [] then None
    else if s[|s| - 1] == c then Some(|s| - 1)
    else
      var r := LastIndex(s[..|s| - 1], c);
      if r.Some? then
        assert s[r.value + 1..] == s[..|s| - 1][r.value + 1..] + [s[|s| - 1]];
        r
      else
        assert s == s[..|s| - 1] + [s[|s| - 1]];
        r
  }

  /** The query of a URL: everything after its first `?`, if it has one. */
  function QueryOf(url: string): Option<string> {
    match FirstIndex(url, '?')
    case None => None
    case Some(i) => Some(url[i + 1..])
  }

  const SignatureKey: string := "signature="

  /** What a server recovers from a signed URL: the signed message (the query up to
      its last `&`) and the signature after `signature=`. */
  function SignedMessage(url: string): Option<(string, string)> {
    match QueryOf(url)
    case None => None
    case Some(q) =>
      match LastIndex(q, '&')
      case None => None
      case Some(i) =>
        var tail := q[i + 1..];
        if |tail| >= |SignatureKey| && tail[..|SignatureKey|] == SignatureKey
        then Some((q[..i], tail[|SignatureKey|..]))
        else None
  }

  /** A URL whose signature is the MAC of its signed message under `secret`. */
  predicate Authentic(url: string, secret: string, mac: Mac) {
    match SignedMessage(url)
    case None => false
    case Some(m) => m.1 == Signature(mac, secret, m.0)
  }

  lemma FirstIndexAt(a: string, c: char, b: string)
    requires c !in a
    ensures FirstIndex(a + [c] + b, c) == Some(|a|)
  {
    var s := a + [c] + b;
    assert s[|a|] == c;
    assert s[..|a|] == a;
  }

  lemma LastIndexAt(a: string, c: char, b: string)
    requires c !in b
    ensures LastIndex(a + [c] + b, c) == Some(|a|)
  {
    var s := a + [c] + b;
    assert s[|a|] == c;
    assert s[|a| + 1..] == b;
  }

  /** An assignment whose key and value need no escaping is written as it is. */
  lemma SafePiece(k: string, v: string)
    requires forall i :: 0 <= i < |k| ==> AlwaysSafe(k[i])
    requires forall i :: 0 <= i < |v| ==> AlwaysSafe(v[i])
    ensures Piece((k, v)) == k + "=" + v
  {
  }

  lemma TimestampPiece(d: string)
    requires forall i :: 0 <= i < |d| ==> IsDigit(d[i])
    ensures Piece(("timestamp", d)) == "timestamp=" + d
  {
    TimestampPieceParts(d);
    TimestampKeyText(d);
  }

  lemma TimestampKeyText(d: string)
    ensures "timestamp" + "=" + d == "timestamp=" + d
  {
  }

  lemma TimestampText(e: string, d: string)
    ensures e + "&" + ("timestamp=" + d) == e + "&timestamp=" + d
  {
  }

  lemma TimestampPieceParts(d: string)
    requires forall i :: 0 <= i < |d| ==> IsDigit(d[i])
    ensures Piece(("timestamp", d)) == "timestamp" + "=" + d
  {
    var k := "timestamp";
    assert forall i :: 0 <= i < |k| ==> AlwaysSafe(k[i]);
    SafePiece(k, d);
  }

  lemma SignaturePiece(sig: string)
    requires forall i :: 0 <= i < |sig| ==> IsLowerHex(sig[i])
    ensures Piece(("signature", sig)) == SignatureKey + sig
  {
    SignaturePieceParts(sig);
    SignatureKeyText(sig);
  }

  lemma SignatureKeyText(sig: string)
    ensures "signature" + "=" + sig == SignatureKey + sig
  {
  }

  lemma SignaturePieceParts(sig: string)
    requires forall i :: 0 <= i < |sig| ==> IsLowerHex(sig[i])
    ensures Piece(("signature", sig)) == "signature" + "=" + sig
  {
    var k := "signature";
    assert forall i :: 0 <= i < |k| ==> AlwaysSafe(k[i]);
    SafePiece(k, sig);
  }

  lemma SignatureTail(sig: string)
    requires forall i :: 0 <= i < |sig| ==> IsLowerHex(sig[i])
    ensures '&' !in SignatureKey + sig
    ensures |SignatureKey + sig| >= |SignatureKey|
  {
    var t := SignatureKey + sig;
    assert forall i :: 0 <= i < |t| ==> t[i] != '&';
  }

  lemma NoQuestionMark(path: string)
    requires '?' !in path
    ensures '?' !in BaseUrl + path
  {
    var u := BaseUrl + path;
    assert forall i :: 0 <= i < |u| ==> u[i] != '?';
  }

  /** The signed URL, regrouped around its `?` and its last `&`. */
  lemma SignedUrlShape(path: string, ps: Payload, show: real -> string, ts: nat,
                       secret: string, mac: Mac)
    ensures SignedUrl(path, ps, show, ts, secret, mac)
         == (BaseUrl + path) + ['?']
            + (SignedQuery(ps, show, ts) + ['&']
               + (SignatureKey + Signature(mac, secret, SignedQuery(ps, show, ts))))
  {
    var qs := SignedQuery(ps, show, ts);
    UrlText(BaseUrl, path, qs, Signature(mac, secret, qs));
  }

  lemma UrlText(base: string, path: string, qs: string, sig: string)
    ensures base + path + "?" + qs + "&signature=" + sig
         == (base + path) + ['?'] + (qs + ['&'] + (SignatureKey + sig))
  {
  }

  lemma {:induction false} JoinSnoc(parts: seq<string>, last: string, sep: char)
    ensures Join(parts + [last], sep)
         == (if parts == [] then last else Join(parts, sep) + [sep] + last)
  {
    if |parts| == 1 {
      assert (parts + [last])[1..] == [last];
    } else if |parts| > 1 {
      assert (parts + [last])[1..] == parts[1..] + [last];
      JoinSnoc(parts[1..], last, sep);
    }
  }

  lemma PiecesSnoc(fs: seq<Field>, f: Field)
    ensures Pieces(fs + [f]) == Pieces(fs) + [Piece(f)]
  {
  }

  /** The payload encoding with `(key, text)` as one more, final entry. */
  lemma EncodeSnoc(ps: Payload, key: string, text: string, show: real -> string)
    ensures Encode(ps + [Param(key, One(Str(text)))], show)
         == (if Encode(ps, show) == [] then Piece((key, text))
             else Encode(ps, show) + "&" + Piece((key, text)))
  {
    var fs := Fields(ps, show);
    FieldsAppend(ps, [Param(key, One(Str(text)))], show);
    assert Fields([Param(key, One(Str(text)))], show) == [(key, text)];
    PiecesSnoc(fs, (key, text));
    JoinSnoc(Pieces(fs), Piece((key, text)), '&');
    EncodeEmpty(ps, show);
  }

  /** The signed query is the payload encoded with `timestamp` appended as its last
      entry: nothing is lost or reordered, and the timestamp is always the last
      signed parameter, also when the encoded payload is empty. */
  lemma SignedQueryAppendsTimestamp(ps: Payload, show: real -> string, ts: nat)
    ensures SignedQuery(ps, show, ts)
         == Encode(ps + [Param("timestamp", One(Str(Decimal(ts))))], show)
  {
    var d := Decimal(ts);
    TimestampPiece(d);
    TimestampText(Encode(ps, show), d);
    EncodeSnoc(ps, "timestamp", d, show);
  }

  /** Read back, the signed query holds exactly the payload's assignments followed
      by `timestamp`. */
  lemma SignedQueryFields(ps: Payload, show: real -> string, ts: nat)
    ensures ParseQuery(SignedQuery(ps, show, ts))
         == Some(Fields(ps, show) + [("timestamp", Decimal(ts))])
  {
    var tp := Param("timestamp", One(Str(Decimal(ts))));
    SignedQueryAppendsTimestamp(ps, show, ts);
    ParseEncode(ps + [tp], show);
    FieldsAppend(ps, [tp], show);
    assert Fields([tp], show) == [("timestamp", Decimal(ts))];
  }

  /** The signature in a signed URL is computed over exactly the text between `?`
      and `&signature=`, and that text is the signed query: a server that splits
      the URL recovers the message and its MAC. */
  lemma SignedUrlMessage(path: string, ps: Payload, show: real -> string, ts: nat,
                         secret: string, mac: Mac)
    requires '?' !in path
    ensures SignedMessage(SignedUrl(path, ps, show, ts, secret, mac))
         == Some((SignedQuery(ps, show, ts),
                  Signature(mac, secret, SignedQuery(ps, show, ts))))
    ensures Authentic(SignedUrl(path, ps, show, ts, secret, mac), secret, mac)
  {
    var qs := SignedQuery(ps, show, ts);
    SignedUrlShape(path, ps, show, ts, secret, mac);
    NoQuestionMark(path);
    SignedUrlSplit(BaseUrl + path, qs, Signature(mac, secret, qs));
  }

  /** Splitting `prefix?qs&signature=sig` recovers `qs` and `sig`. */
  lemma SignedUrlSplit(prefix: string, qs: string, sig: string)
    requires '?' !in prefix
    requires forall i :: 0 <= i < |sig| ==> IsLowerHex(sig[i])
    ensures SignedMessage(prefix + ['?'] + (qs + ['&'] + (SignatureKey + sig))) == Some((qs, sig))
  {
    var tail := SignatureKey + sig;
    FirstIndexAt(prefix, '?', qs + ['&'] + tail);
    SignatureTail(sig);
    LastIndexAt(qs, '&', tail);
    assert (qs + ['&'] + tail)[..|qs|] == qs;
    assert (qs + ['&'] + tail)[|qs| + 1..] == tail;
    assert tail[..|SignatureKey|] == SignatureKey;
    assert tail[|SignatureKey|..] == sig;
  }

  /** The query of a signed URL is the encoding of the payload with `timestamp`
      and then `signature` appended as entries. */
  lemma SignedUrlQueryEncoding(ps: Payload, show: real -> string, ts: nat, sig: string)
    requires forall i :: 0 <= i < |sig| ==> IsLowerHex(sig[i])
    ensures Encode(ps + [Param("timestamp", One(Str(Decimal(ts))))]
                      + [Param("signature", One(Str(sig)))], show)
         == SignedQuery(ps, show, ts) + ['&'] + (SignatureKey + sig)
  {
    var tp := Param("timestamp", One(Str(Decimal(ts))));
    SignedQueryAppendsTimestamp(ps, show, ts);
    SignaturePiece(sig);
    assert SignedQuery(ps, show, ts) != [];
    EncodeSnoc(ps + [tp], "signature", sig, show);
  }

  lemma FieldsWithTimestampAndSignature(ps: Payload, show: real -> string, d: string, sig: string)
    ensures Fields(ps + [Param("timestamp", One(Str(d)))] + [Param("signature", One(Str(sig)))], show)
         == Fields(ps, show) + [("timestamp", d), ("signature", sig)]
  {
    var tp := Param("timestamp", One(Str(d)));
    var sp := Param("signature", One(Str(sig)));
    FieldsAppend(ps + [tp], [sp], show);
    FieldsAppend(ps, [tp], show);
    assert Fields([sp], show) == [("signature", sig)];
    assert Fields([tp], show) == [("timestamp", d)];
  }

  /** Read back, the query of a signed URL holds the payload's assignments, then
      `timestamp`, then `signature`, and nothing else. */
  lemma SignedUrlFields(path: string, ps: Payload, show: real -> string, ts: nat,
                        secret: string, mac: Mac)
    requires '?' !in path
    ensures QueryOf(SignedUrl(path, ps, show, ts, secret, mac)).Some?
    ensures ParseQuery(QueryOf(SignedUrl(path, ps, show, ts, secret, mac)).value)
         == Some(Fields(ps, show)
                 + [("timestamp", Decimal(ts)),
                    ("signature", Signature(mac, secret, SignedQuery(ps, show, ts)))])
  {
    var tp := Param("timestamp", One(Str(Decimal(ts))));
    var qs := SignedQuery(ps, show, ts);
    var sig := Signature(mac, secret, qs);
    var sp := Param("signature", One(Str(sig)));
    var q := qs + ['&'] + (SignatureKey + sig);
    SignedUrlShape(path, ps, show, ts, secret, mac);
    NoQuestionMark(path);
    FirstIndexAt(BaseUrl + path, '?', q);
    assert QueryOf(SignedUrl(path, ps, show, ts, secret, mac)) == Some(q);
    SignedUrlQueryEncoding(ps, show, ts, sig);
    ParseEncode(ps + [tp] + [sp], show);
    FieldsWithTimestampAndSignature(ps, show, Decimal(ts), sig);
  }

  /** A public URL adds nothing to the payload: it has a query (`?` and the encoded
      payload) exactly when the payload emits an assignment, and that query reads
      back as the payload's assignments alone, with no timestamp and no signature. */
  lemma PublicUrlQuery(path: string, ps: Payload, show: real -> string)
    requires '?' !in path
    ensures PublicUrl(path, ps, show)[..|BaseUrl + path|] == BaseUrl + path
    ensures QueryOf(PublicUrl(path, ps, show)).Some? <==> Fields(ps, show) != []
    ensures QueryOf(PublicUrl(path, ps, show)).Some? ==>
              ParseQuery(QueryOf(PublicUrl(path, ps, show)).value) == Some(Fields(ps, show))
  {
    var qs := Encode(ps, show);
    EncodeEmpty(ps, show);
    ParseEncode(ps, show);
    NoQuestionMark(path);
    if qs != [] {
      FirstIndexAt(BaseUrl + path, '?', qs);
      assert PublicUrl(path, ps, show) == (BaseUrl + path) + ['?'] + qs;
    } else {
      assert PublicUrl(path, ps, show) == BaseUrl + path;
    }
  }
}
