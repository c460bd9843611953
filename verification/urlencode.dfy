/** `urlencode(payload, True)`: the form encoding of an ordered payload, where a
    list-valued entry expands to one `key=value` per element ("array style").
    `ParseQuery` is an independent reading of a query string back into its
    key/value pairs; `ParseEncode` proves it recovers exactly the pairs the
    encoding emitted, in order. */
module UrlEncode {
  import opened Util
  import opened Quote

  /** A payload value that is not a list: text, or a float (written with `str`). */
  datatype Scalar = Str(s: string) | Num(x: real)

  /** A payload entry's value: one scalar, or a list of them. */
  datatype Value = One(v: Scalar) | Many(items: seq<Scalar>)

  datatype Param = Param(key: string, value: Value)

  /** A request payload: the entries of a Python dict in insertion order. */
  type Payload = seq<Param>

  /** One `key=value` assignment of the query, before escaping. */
  type Field = (string, string)

  /** `str(v)`; `show` is Python's `str(float)`, which this model does not spell out. */
  function Text(v: Scalar, show: real -> string): string {
    match v
    case Str(s) => s
    case Num(x) => show(x)
  }

  /** The assignments one entry contributes: one for a scalar, one per element for a list. */
  function FieldsOf(p: Param, show: real -> string): (fs: seq<Field>)
    ensures p.value.One? ==> fs == [(p.key, Text(p.value.v, show))]
    ensures p.value.Many? ==> |fs| == |p.value.items|
  {
    match p.value
    case One(v) => [(p.key, Text(v, show))]
    case Many(items) => seq(|items|, i requires 0 <= i < |items| => (p.key, Text(items[i], show)))
  }

  /** All assignments of a payload, entry by entry in insertion order. */
  function Fields(ps: Payload, show: real -> string): seq<Field> {
    if ps == [] then [] else FieldsOf(ps[0], show) + Fields(ps[1..], show)
  }

  /** Insertion order is kept: the assignments of a concatenation are the
      concatenation of the assignments. */
  lemma {:induction false} FieldsAppend(ps: Payload, qs: Payload, show: real -> string)
    ensures Fields(ps + qs, show) == Fields(ps, show) + Fields(qs, show)
  {
    if ps == [] {
      assert ps + qs == qs;
    } else {
      var a, b, c := FieldsOf(ps[0], show), Fields(ps[1..], show), Fields(qs, show);
      assert Fields(ps + qs, show) == a + Fields(ps[1..] + qs, show) by {
        assert ps + qs != [];
        assert (ps + qs)[0] == ps[0];
        assert (ps + qs)[1..] == ps[1..] + qs;
      }
      FieldsAppend(ps[1..], qs, show);
      assert a + (b + c) == (a + b) + c;
    }
  }

  /** The characters an encoded query can contain: those of escaped tokens, `&` and `=`. */
  predicate QueryChar(c: char) {
    Escaped(c) || c == '&' || c == '='
  }

  predicate QueryText(s: string) {
    forall i :: 0 <= i < |s| ==> QueryChar(s[i])
  }

  /** `key=value` with both sides escaped. */
  function Piece(f: Field): (t: string)
    ensures '&' !in t
    ensures QueryText(t)
  {
    QuotePlus(f.0) + "=" + QuotePlus(f.1)
  }

  function Pieces(fs: seq<Field>): (ts: seq<string>)
    ensures |ts| == |fs|
    ensures forall i :: 0 <= i < |fs| ==> ts[i] == Piece(fs[i])
  {
    if fs == [] then [] else [Piece(fs[0])] + Pieces(fs[1..])
  }

  /** `sep.join(parts)`. */
  function Join(parts: seq<string>, sep: char): string {
    if parts == [] then []
    else if |parts| == 1 then parts[0]
    else parts[0] + [sep] + Join(parts[1..], sep)
  }

  lemma {:induction false} JoinQueryText(parts: seq<string>)
    requires forall i :: 0 <= i < |parts| ==> QueryText(parts[i])
    ensures QueryText(Join(parts, '&'))
  {
    if |parts| > 1 {
      JoinQueryText(parts[1..]);
      assert QueryText(parts[0]);
    }
  }

  /** `urlencode(payload, True)`: only escaped-token characters, `&` and `=`, so
      never a `?`. */
  function Encode(ps: Payload, show: real -> string): (q: string)
    ensures QueryText(q)
    ensures '?' !in q
  {
    var parts := Pieces(Fields(ps, show));
    JoinQueryText(parts);
    Join(parts, '&')
  }

  /** `s.split(sep)`: the maximal pieces between separators, always at least one. */
  function Split(s: string, sep: char): (parts: seq<string>)
    ensures |parts| >= 1
  {
    if s == [] then [[]]
    else if s[0] == sep then [[]] + Split(s[1..], sep)
    else
      var rest := Split(s[1..], sep);
      [[s[0]] + rest[0]] + rest[1..]
  }

  lemma {:induction false} SplitNoSep(s: string, sep: char)
    requires sep !in s
    ensures Split(s, sep) == [s]
  {
    if s != [] {
      SplitNoSep(s[1..], sep);
      assert [s[0]] + s[1..] == s;
    }
  }

  lemma {:induction false} SplitAt(a: string, sep: char, b: string)
    requires sep !in a
    ensures Split(a + [sep] + b, sep) == [a] + Split(b, sep)
  {
    if a == [] {
      assert a + [sep] + b == [sep] + b;
      assert ([sep] + b)[1..] == b;
    } else {
      assert (a + [sep] + b)[1..] == a[1..] + [sep] + b;
      SplitAt(a[1..], sep, b);
      assert [a[0]] + a[1..] == a;
    }
  }

  /** Splitting a join recovers the parts when no part holds the separator. */
  lemma {:induction false} SplitJoin(parts: seq<string>, sep: char)
    requires |parts| >= 1
    requires forall i :: 0 <= i < |parts| ==> sep !in parts[i]
    ensures Split(Join(parts, sep), sep) == parts
  {
    if |parts| == 1 {
      SplitNoSep(parts[0], sep);
    } else {
      SplitJoin(parts[1..], sep);
      SplitAt(parts[0], sep, Join(parts[1..], sep));
      assert [parts[0]] + parts[1..] == parts;
    }
  }

  /** Reads one `key=value` assignment. */
  function ParseField(seg: string): Option<Field> {
    var kv := Split(seg, '=');
    if |kv| != 2 then None
    else match (UnquotePlus(kv[0]), UnquotePlus(kv[1]))
      case (Some(k), Some(v)) => Some((k, v))
      case _ => None
  }

  function ParseFields(segs: seq<string>): Option<seq<Field>> {
    if segs == [] then Some([])
    else match (ParseField(segs[0]), ParseFields(segs[1..]))
      case (Some(f), Some(fs)) => Some([f] + fs)
      case _ => None
  }

  /** Reads a query string back into its assignments, in order. */
  function ParseQuery(q: string): Option<seq<Field>> {
    if q == [] then Some([]) else ParseFields(Split(q, '&'))
  }

  lemma ParsePiece(f: Field)
    ensures ParseField(Piece(f)) == Some(f)
  {
    var a, b := QuotePlus(f.0), QuotePlus(f.1);
    SplitAt(a, '=', b);
    SplitNoSep(b, '=');
    UnquoteQuotePlus(f.0);
    UnquoteQuotePlus(f.1);
  }

  lemma {:induction false} ParsePieces(fs: seq<Field>)
    ensures ParseFields(Pieces(fs)) == Some(fs)
  {
    if fs != [] {
      ParsePiece(fs[0]);
      ParsePieces(fs[1..]);
      assert Pieces(fs)[1..] == Pieces(fs[1..]);
      assert [fs[0]] + fs[1..] == fs;
    }
  }

  lemma {:induction false} JoinEmpty(parts: seq<string>, sep: char)
    requires forall i :: 0 <= i < |parts| ==> parts[i] != []
    ensures Join(parts, sep) == [] <==> parts == []
  {
    if |parts| > 1 {
      assert |Join(parts, sep)| >= |parts[0]|;
    }
  }

  /** The encoded query is empty exactly when the payload emits no assignment,
      i.e. when every entry is an empty list (a scalar always writes `k=v`). */
  lemma EncodeEmpty(ps: Payload, show: real -> string)
    ensures Encode(ps, show) == [] <==> Fields(ps, show) == []
  {
    var fs := Fields(ps, show);
    var parts := Pieces(fs);
    assert forall i :: 0 <= i < |parts| ==> '=' in parts[i];
    JoinEmpty(parts, '&');
  }

  /** Reading the encoding back yields exactly the payload's assignments in
      insertion order, lists expanded element by element. */
  lemma ParseEncode(ps: Payload, show: real -> string)
    ensures ParseQuery(Encode(ps, show)) == Some(Fields(ps, show))
  {
    var fs := Fields(ps, show);
    EncodeEmpty(ps, show);
    if fs != [] {
      SplitJoin(Pieces(fs), '&');
      ParsePieces(fs);
    }
  }

  /** A list-valued entry expands to one `key=element` per element, joined by `&`. */
  lemma EncodeList(key: string, items: seq<Scalar>, show: real -> string)
    ensures Encode([Param(key, Many(items))], show)
         == Join(seq(|items|, i requires 0 <= i < |items| => Piece((key, Text(items[i], show)))), '&')
  {
    var ps := [Param(key, Many(items))];
    assert Fields(ps, show) == FieldsOf(ps[0], show) + Fields([], show);
    assert Pieces(Fields(ps, show))
        == seq(|items|, i requires 0 <= i < |items| => Piece((key, Text(items[i], show))));
  }
}
