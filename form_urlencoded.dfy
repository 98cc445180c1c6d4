/**
 * The parts of `URLSearchParams` the handler uses: `get` on the incoming
 * query, and `toString`, the application/x-www-form-urlencoded serializer
 * of section 5.2 of the WHATWG URL Standard, on the outgoing one. The
 * percent-encoding of a single name or value is platform behaviour and is
 * taken as a parameter `encode`; what is modelled is how the encoded names
 * and values are laid out with '=' and '&'. The parser of section 5.1 is
 * given too, with its percent-decoding as a parameter `decode`, so that
 * what the remote renderer reads back from the query can be stated.
 */
module FormUrlEncoded {
  import opened Wrappers
  import JsStrings

  /** An ordered list of name/value pairs, as held by a URLSearchParams object. */
  type Pairs = seq<(string, string)>

  /** `params.get(name)`: the value of the first pair named `name`, or None for JavaScript's null. */
  function Get(ps: Pairs, name: string): (r: Option<string>)
    ensures r.None? <==> forall i :: 0 <= i < |ps| ==> ps[i].0 != name
    ensures r.Some? ==> exists i :: 0 <= i < |ps| && ps[i] == (name, r.value) &&
                                    forall j :: 0 <= j < i ==> ps[j].0 != name
  {
    if ps == [] then None
    else if ps[0].0 == name then Some(ps[0].1)
    else
      var r := Get(ps[1..], name);
      assert r.Some? ==> exists i :: 1 <= i < |ps| && ps[i] == (name, r.value) &&
                                     forall j :: 0 <= j < i ==> ps[j].0 != name by {
        if r.Some? {
          var i :| 0 <= i < |ps[1..]| && ps[1..][i] == (name, r.value) &&
                   forall j :: 0 <= j < i ==> ps[1..][j].0 != name;
          assert forall j :: 0 <= j < i + 1 ==> ps[j].0 != name by {
            forall j | 0 <= j < i + 1 ensures ps[j].0 != name {
              if j > 0 { assert ps[j] == ps[1..][j - 1]; }
            }
          }
        }
      }
      r
  }

  /** The percent-encoder never emits the two separators '&' and '='. */
  ghost predicate KeepsSeparators(encode: string -> string)
  {
    forall s :: '&' !in encode(s) && '=' !in encode(s)
  }

  /** `decode` undoes `encode` on every string. */
  ghost predicate Undoes(decode: string -> string, encode: string -> string)
  {
    forall s :: decode(encode(s)) == s
  }

  /** The encoded `name=value` text of every pair, in order. */
  function Fields(encode: string -> string, ps: Pairs): (r: seq<string>)
    ensures |r| == |ps|
  {
    seq(|ps|, i requires 0 <= i < |ps| => encode(ps[i].0) + "=" + encode(ps[i].1))
  }

  /** Pieces written one after another with `sep` between neighbours. */
  function Join(pieces: seq<string>, sep: char): string
    requires |pieces| >= 1
  {
    if |pieces| == 1 then pieces[0] else pieces[0] + [sep] + Join(pieces[1..], sep)
  }

  /** `params.toString()`: the serializer of section 5.2 of the WHATWG URL Standard. */
  function Serialize(encode: string -> string, ps: Pairs): string
  {
    if ps == [] then "" else Join(Fields(encode, ps), '&')
  }

  /** The text between the occurrences of `sep`; Join puts them back together. */
  function SplitOn(s: string, sep: char): (r: seq<string>)
    ensures |r| >= 1
    ensures forall i :: 0 <= i < |r| ==> sep !in r[i]
    ensures Join(r, sep) == s
  {
    if s == [] then [""]
    else
      var rest := SplitOn(s[1..], sep);
      assert s == [s[0]] + s[1..];
      if s[0] == sep then
        assert Join([""] + rest, sep) == [sep] + Join(rest, sep) by {
          assert ([""] + rest)[1..] == rest;
        }
        [""] + rest
      else
        var r := [[s[0]] + rest[0]] + rest[1..];
        assert Join(r, sep) == [s[0]] + Join(rest, sep) by {
          if |rest| > 1 { assert r[1..] == rest[1..]; }
        }
        r
  }

  /** A piece `name=value` splits at its first '='; a piece without '=' is a name with an empty value. */
  function ParsePiece(decode: string -> string, piece: string): (string, string)
  {
    var i := JsStrings.IndexOf(piece, '=');
    if i < 0 then (decode(piece), "") else (decode(piece[..i]), decode(piece[i + 1..]))
  }

  /** The pieces between '&', empty pieces skipped. */
  function ParsePieces(decode: string -> string, pieces: seq<string>): Pairs
  {
    if pieces == [] then []
    else if pieces[0] == "" then ParsePieces(decode, pieces[1..])
    else [ParsePiece(decode, pieces[0])] + ParsePieces(decode, pieces[1..])
  }

  /** The application/x-www-form-urlencoded parser of section 5.1 of the WHATWG URL Standard. */
  function Parse(decode: string -> string, query: string): Pairs
  {
    ParsePieces(decode, SplitOn(query, '&'))
  }

  /** Text before a separator it does not contain is a single piece, and splitting goes on after it. */
  lemma {:induction false} SplitOnConcat(a: string, b: string, sep: char)
    requires sep !in a
    ensures SplitOn(a + [sep] + b, sep) == [a] + SplitOn(b, sep)
  {
    if a == [] {
      assert [sep] + b == [sep] + b[..];
      assert ([sep] + b)[1..] == b;
    } else {
      var s := a + [sep] + b;
      SplitOnConcat(a[1..], b, sep);
      assert s[1..] == a[1..] + [sep] + b;
      var rest := SplitOn(s[1..], sep);
      assert rest == [a[1..]] + SplitOn(b, sep);
      assert SplitOn(s, sep) == [[a[0]] + rest[0]] + rest[1..];
      assert [a[0]] + a[1..] == a;
      assert rest[1..] == SplitOn(b, sep);
    }
  }

  /** Text without the separator is a single piece. */
  lemma SplitOnWhole(a: string, sep: char)
    requires sep !in a
    ensures SplitOn(a, sep) == [a]
  {
  }

  /** Splitting undoes joining when no piece holds the separator. */
  lemma {:induction false} SplitJoin(pieces: seq<string>, sep: char)
    requires |pieces| >= 1
    requires forall i :: 0 <= i < |pieces| ==> sep !in pieces[i]
    ensures SplitOn(Join(pieces, sep), sep) == pieces
  {
    if |pieces| == 1 {
      SplitOnWhole(pieces[0], sep);
    } else {
      SplitJoin(pieces[1..], sep);
      SplitOnConcat(pieces[0], Join(pieces[1..], sep), sep);
    }
  }

  /** One encoded field parses back to its pair. */
  lemma ParseField(encode: string -> string, decode: string -> string, p: (string, string))
    requires KeepsSeparators(encode) && Undoes(decode, encode)
    ensures ParsePiece(decode, encode(p.0) + "=" + encode(p.1)) == p
  {
    var name, value := encode(p.0), encode(p.1);
    var piece := name + "=" + value;
    var i := JsStrings.IndexOf(piece, '=');
    assert piece[|name|] == '=';
    assert forall k :: 0 <= k < |name| ==> piece[k] == name[k] && name[k] != '=';
    assert i == |name|;
    assert piece[..i] == name;
    assert piece[i + 1..] == value;
  }

  /** The pieces of a serialization parse back to the pairs they came from. */
  lemma {:induction false} ParseFields(encode: string -> string, decode: string -> string, ps: Pairs)
    requires KeepsSeparators(encode) && Undoes(decode, encode)
    ensures ParsePieces(decode, Fields(encode, ps)) == ps
  {
    if ps != [] {
      var fs := Fields(encode, ps);
      assert fs[0] == encode(ps[0].0) + "=" + encode(ps[0].1);
      assert fs[0] != "" by { assert fs[0][|encode(ps[0].0)|] == '='; }
      ParseField(encode, decode, ps[0]);
      assert fs[1..] == Fields(encode, ps[1..]);
      ParseFields(encode, decode, ps[1..]);
    }
  }

  /**
   * Round trip: whoever parses the serialized query reads back exactly the
   * pairs, in order, as long as the percent-encoding hides '&' and '=' and
   * is undone by the percent-decoding.
   */
  lemma ParseSerialize(encode: string -> string, decode: string -> string, ps: Pairs)
    requires KeepsSeparators(encode) && Undoes(decode, encode)
    ensures Parse(decode, Serialize(encode, ps)) == ps
  {
    if ps != [] {
      var fs := Fields(encode, ps);
      forall i | 0 <= i < |fs| ensures '&' !in fs[i] {
        assert fs[i] == encode(ps[i].0) + "=" + encode(ps[i].1);
      }
      SplitJoin(fs, '&');
      ParseFields(encode, decode, ps);
    }
  }

  /** Two different pair lists never serialize to the same query. */
  lemma SerializeInjective(encode: string -> string, decode: string -> string, a: Pairs, b: Pairs)
    requires KeepsSeparators(encode) && Undoes(decode, encode)
    requires Serialize(encode, a) == Serialize(encode, b)
    ensures a == b
  {
    ParseSerialize(encode, decode, a);
    ParseSerialize(encode, decode, b);
  }
}
