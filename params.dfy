/**
 * `joinParams` (sql_lib.js): one `name=value` piece per enumerated property of a
 * parameter object, joined by a separator, plus a parser that reads such a
 * string back, used to state the round trip.
 */
module Params {

  /** One enumerated property of a parameter object: its name and its value. */
  type Param = (string, string)

  /** The piece `field + "=" + value` pushed for one property. */
  function Piece(p: Param): string
  {
    p.0 + "=" + p.1
  }

  /** The pieces of all properties, in enumeration order. */
  function Pieces(obj: seq<Param>): seq<string>
  {
    seq(|obj|, k requires 0 <= k < |obj| => Piece(obj[k]))
  }

  /** `Array.prototype.join`: the elements with `sep` between neighbours; "" for none. */
  function Join(xs: seq<string>, sep: string): string
  {
    if |xs| == 0 then ""
    else if |xs| == 1 then xs[0]
    else xs[0] + sep + Join(xs[1..], sep)
  }

  /**
   * The loop of `joinParams`: push one piece per property into `result`,
   * then join them.
   */
  method JoinParams(obj: seq<Param>, separator: string) returns (s: string)
    ensures s == Join(Pieces(obj), separator)
    ensures s == "" <==> obj == []
  {
    var result: seq<string> := [];
    for k := 0 to |obj|
      invariant |result| == k
      invariant forall j :: 0 <= j < k ==> result[j] == Piece(obj[j])
    {
      result := result + [obj[k].0 + "=" + obj[k].1];
    }
    assert result == Pieces(obj);
    s := Join(result, separator);
    JoinedEmpty(obj, separator);
  }

  /** Every piece holds an `=`, so the joined string is empty exactly for an empty object. */
  lemma JoinedEmpty(obj: seq<Param>, sep: string)
    ensures Join(Pieces(obj), sep) == "" <==> obj == []
  {
  }

  /** Splits `s` at every occurrence of `c` (JavaScript `s.split(c)`). */
  function Split(s: string, c: char): (r: seq<string>)
    ensures |r| > 0
  {
    if s == [] then [""]
    else
      var rest := Split(s[1..], c);
      if s[0] == c then [""] + rest else [[s[0]] + rest[0]] + rest[1..]
  }

  /** Reads a piece back: the name before the first `=`, the value after it. */
  function Unpiece(p: string): Param
  {
    if p == [] then ("", "")
    else if p[0] == '=' then ("", p[1..])
    else
      var kv := Unpiece(p[1..]);
      ([p[0]] + kv.0, kv.1)
  }

  /** Reads a `;`-separated connection string back into its properties; "" holds none. */
  function ParseParams(s: string): seq<Param>
  {
    if s == "" then []
    else
      var ps := Split(s, ';');
      seq(|ps|, k requires 0 <= k < |ps| => Unpiece(ps[k]))
  }

  lemma {:induction false} SplitWithout(a: string, c: char)
    requires c !in a
    ensures Split(a, c) == [a]
  {
    if a != [] {
      SplitWithout(a[1..], c);
      assert [a[0]] + a[1..] == a;
    }
  }

  lemma {:induction false} SplitAfter(a: string, b: string, c: char)
    requires c !in a
    ensures Split(a + [c] + b, c) == [a] + Split(b, c)
  {
    if a == [] {
      assert a + [c] + b == [c] + b;
      assert ([c] + b)[1..] == b;
    } else {
      SplitAfter(a[1..], b, c);
      assert (a + [c] + b)[1..] == a[1..] + [c] + b;
      assert [a[0]] + a[1..] == a;
    }
  }

  /** Splitting a joined list at a separator that no element contains gives the list back. */
  lemma {:induction false} SplitJoin(xs: seq<string>, c: char)
    requires |xs| > 0
    requires forall k :: 0 <= k < |xs| ==> c !in xs[k]
    ensures Split(Join(xs, [c]), c) == xs
  {
    if |xs| == 1 {
      SplitWithout(xs[0], c);
    } else {
      SplitJoin(xs[1..], c);
      SplitAfter(xs[0], Join(xs[1..], [c]), c);
      assert [xs[0]] + xs[1..] == xs;
    }
  }

  lemma {:induction false} UnpieceOfPiece(k: string, v: string)
    requires '=' !in k
    ensures Unpiece(Piece((k, v))) == (k, v)
  {
    if k == [] {
      assert Piece((k, v)) == ['='] + v;
    } else {
      UnpieceOfPiece(k[1..], v);
      assert Piece((k, v))[1..] == Piece((k[1..], v));
      assert [k[0]] + k[1..] == k;
    }
  }

  /**
   * Round trip: when no name holds `=` or `;` and no value holds `;`, reading
   * the `;`-joined pieces back reproduces the properties, in order.
   */
  lemma ParseJoinedParams(obj: seq<Param>)
    requires forall k :: 0 <= k < |obj| ==> '=' !in obj[k].0 && ';' !in obj[k].0 && ';' !in obj[k].1
    ensures ParseParams(Join(Pieces(obj), ";")) == obj
  {
    JoinedEmpty(obj, ";");
    if obj == [] {
      return;
    }
    var xs := Pieces(obj);
    forall k | 0 <= k < |xs|
      ensures ';' !in xs[k]
    {
      assert xs[k] == obj[k].0 + "=" + obj[k].1;
    }
    SplitJoin(xs, ';');
    forall k | 0 <= k < |obj|
      ensures Unpiece(xs[k]) == obj[k]
    {
      UnpieceOfPiece(obj[k].0, obj[k].1);
    }
  }
}
