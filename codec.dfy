/** The serializer the repository uses to put products into the cache
    (`JsonSerializer.Serialize` / `JsonSerializer.Deserialize`).

    The text has the layout System.Text.Json produces with its default
    options: a product is `{"Id":1,"Name":"Keyboard","Price":30}` (a missing
    name is `null`), a list is `[` the products separated by `,` `]`. Numbers
    have no leading zeros and no `-0`. Unlike System.Text.Json, which writes
    a quote as `\u0022`, this model escapes only `"` and `\` inside a name,
    as `\"` and `\\`, and writes every other character as it is.

    The decoder accepts exactly the texts the encoder produces, plus the
    literal `null`, which decodes to a null reference (`DecodeProduct` and
    `DecodeList` state this both ways); every other text is malformed, which
    is where the real deserializer throws. */
module Codec {
  import opened Domain

  /** What deserializing a cached text yields. */
  datatype Decoded<T> = Null | Value(value: T) | Malformed

  // ----- integers -----

  predicate IsDigit(c: char) { '0' <= c <= '9' }

  predicate AllDigits(s: string) { forall i :: 0 <= i < |s| ==> IsDigit(s[i]) }

  function DigitChar(d: nat): (c: char)
    requires d < 10
    ensures IsDigit(c) && c as int - '0' as int == d
  {
    ('0' as int + d) as char
  }

  /** Decimal digits of `n`, most significant first, without leading zeros. */
  function NatToString(n: nat): (s: string)
    ensures s != [] && AllDigits(s)
    ensures |s| > 1 ==> s[0] != '0'
    decreases n
  {
    if n < 10 then [DigitChar(n)] else NatToString(n / 10) + [DigitChar(n % 10)]
  }

  /** The number a string of decimal digits denotes. */
  function DigitsValue(s: string): nat
    requires AllDigits(s)
    decreases |s|
  {
    if s == [] then 0 else 10 * DigitsValue(s[..|s| - 1]) + (s[|s| - 1] as int - '0' as int)
  }

  lemma {:induction false} NatToStringRoundTrip(n: nat)
    ensures DigitsValue(NatToString(n)) == n
    decreases n
  {
    if n >= 10 {
      var s := NatToString(n);
      assert s[..|s| - 1] == NatToString(n / 10);
      NatToStringRoundTrip(n / 10);
    }
  }

  /** How C# formats an `int`: an optional minus sign, then the digits. */
  function IntToString(i: int): (s: string)
    ensures s != [] && (s[0] == '-' || IsDigit(s[0]))
  {
    if i < 0 then "-" + NatToString(-i) else NatToString(i)
  }

  /** Length of the longest prefix of `s` made of digits. */
  function LeadingDigits(s: string): (k: nat)
    ensures k <= |s|
    ensures forall i :: 0 <= i < k ==> IsDigit(s[i])
    ensures k < |s| ==> !IsDigit(s[k])
    decreases |s|
  {
    if s == [] || !IsDigit(s[0]) then 0 else 1 + LeadingDigits(s[1..])
  }

  /** A JSON number without sign: one or more digits, no leading zero. */
  function ParseNat(s: string): (r: Option<(nat, string)>)
    ensures r.Some? ==> |r.value.1| < |s|
  {
    var k := LeadingDigits(s);
    if k == 0 || (k > 1 && s[0] == '0') then None else Some((DigitsValue(s[..k]), s[k..]))
  }

  function ParseInt(s: string): (r: Option<(int, string)>)
    ensures r.Some? ==> |r.value.1| < |s|
  {
    if s != [] && s[0] == '-' then
      var n :- ParseNat(s[1..]);
      if n.0 == 0 then None
      else
        var v: int := 0 - n.0 as int;
        Some((v, n.1))
    else
      var n :- ParseNat(s);
      Some((n.0 as int, n.1))
  }

  lemma ParseNatRoundTrip(n: nat, rest: string)
    requires rest == [] || !IsDigit(rest[0])
    ensures ParseNat(NatToString(n) + rest) == Some((n, rest))
  {
    var d := NatToString(n);
    var s := d + rest;
    assert forall i :: 0 <= i < |d| ==> s[i] == d[i];
    assert |d| < |s| ==> s[|d|] == rest[0];
    assert LeadingDigits(s) == |d|;
    assert s[..|d|] == d && s[|d|..] == rest;
    NatToStringRoundTrip(n);
  }

  /** A digit string that starts with a non-zero digit denotes a positive number. */
  lemma {:induction false} DigitsValuePositive(d: string)
    requires d != [] && AllDigits(d) && d[0] != '0'
    ensures DigitsValue(d) >= 1
    decreases |d|
  {
    if |d| > 1 {
      DigitsValuePositive(d[..|d| - 1]);
    }
  }

  /** A digit string without leading zeros is the text of the number it denotes. */
  lemma {:induction false} NatToStringOfDigits(d: string)
    requires d != [] && AllDigits(d) && (|d| > 1 ==> d[0] != '0')
    ensures NatToString(DigitsValue(d)) == d
    decreases |d|
  {
    var n := DigitsValue(d);
    if |d| == 1 {
      assert d[..|d| - 1] == [];
      assert DigitsValue(d[..|d| - 1]) == 0;
      assert n == 10 * 0 + (d[|d| - 1] as int - '0' as int);
      assert DigitChar(n) == d[0];
    } else {
      var front := d[..|d| - 1];
      DigitsValuePositive(front);
      NatToStringOfDigits(front);
      assert n / 10 == DigitsValue(front) && n % 10 == d[|d| - 1] as int - '0' as int;
      assert DigitChar(n % 10) == d[|d| - 1];
      assert front + [d[|d| - 1]] == d;
    }
  }

  /** Whatever `ParseNat` accepts is a number's text followed by a non-digit or nothing. */
  lemma ParseNatConverse(s: string)
    requires ParseNat(s).Some?
    ensures s == NatToString(ParseNat(s).value.0) + ParseNat(s).value.1
    ensures ParseNat(s).value.1 == [] || !IsDigit(ParseNat(s).value.1[0])
  {
    var k := LeadingDigits(s);
    NatToStringOfDigits(s[..k]);
    assert s == s[..k] + s[k..];
  }

  /** Whatever `ParseInt` accepts is an integer's text followed by the rest. */
  lemma ParseIntConverse(s: string)
    requires ParseInt(s).Some?
    ensures s == IntToString(ParseInt(s).value.0) + ParseInt(s).value.1
  {
    var r := ParseInt(s).value;
    if s != [] && s[0] == '-' {
      var n := ParseNat(s[1..]).value;
      assert r == (0 - n.0 as int, n.1);
      ParseNatConverse(s[1..]);
      assert r.0 < 0 && -r.0 == n.0;
      assert IntToString(r.0) == "-" + NatToString(n.0);
      assert s == [s[0]] + s[1..];
    } else {
      var n := ParseNat(s).value;
      assert r == (n.0 as int, n.1);
      ParseNatConverse(s);
      assert IntToString(r.0) == NatToString(n.0);
    }
  }

  /** An integer reads back from its text, whatever non-digit follows it. */
  lemma IntRoundTrip(i: int, rest: string)
    requires rest == [] || !IsDigit(rest[0])
    ensures ParseInt(IntToString(i) + rest) == Some((i, rest))
  {
    if i < 0 {
      NegIntRoundTrip(i, rest);
    } else {
      PosIntRoundTrip(i, rest);
    }
  }

  /** `IntRoundTrip` for a negative number: the minus sign, then its magnitude. */
  lemma NegIntRoundTrip(i: int, rest: string)
    requires i < 0 && (rest == [] || !IsDigit(rest[0]))
    ensures ParseInt(IntToString(i) + rest) == Some((i, rest))
  {
    var d := NatToString(-i);
    ParseNatRoundTrip(-i, rest);
    ParseIntMinus(d + rest);
    ConcatAssoc("-", d, rest);
  }

  /** `IntRoundTrip` for a number without sign. */
  lemma PosIntRoundTrip(i: int, rest: string)
    requires i >= 0 && (rest == [] || !IsDigit(rest[0]))
    ensures ParseInt(IntToString(i) + rest) == Some((i, rest))
  {
    ParseNatRoundTrip(i, rest);
    assert (NatToString(i) + rest)[0] == NatToString(i)[0];
  }

  lemma ConcatAssoc(a: string, b: string, c: string)
    ensures a + b + c == a + (b + c)
  {
  }

  /** One step of `ParseInt` on a text that starts with a minus sign. */
  lemma ParseIntMinus(t: string)
    ensures ParseInt("-" + t) == if ParseNat(t).Some? && ParseNat(t).value.0 != 0
                                 then Some((-(ParseNat(t).value.0 as int), ParseNat(t).value.1))
                                 else None
  {
    assert ("-" + t)[0] == '-' && ("-" + t)[1..] == t;
  }

  // ----- strings -----

  /** The model's string escaping: a backslash before `"` and `\`, every
      other character as it is. */
  function Escape(s: string): string
    decreases |s|
  {
    if s == [] then []
    else (if s[0] == '"' || s[0] == '\\' then ['\\', s[0]] else [s[0]]) + Escape(s[1..])
  }

  /** Reads the body of a string literal up to its closing quote, undoing
      `Escape`; returns the text and what follows the quote. */
  function ParseStringBody(s: string): (r: Option<(string, string)>)
    ensures r.Some? ==> |r.value.1| < |s|
    decreases |s|
  {
    if s == [] then None
    else if s[0] == '"' then Some(([], s[1..]))
    else if s[0] == '\\' then
      if |s| < 2 || (s[1] != '"' && s[1] != '\\') then None
      else
        var b :- ParseStringBody(s[2..]);
        Some(([s[1]] + b.0, b.1))
    else
      var b :- ParseStringBody(s[1..]);
      Some(([s[0]] + b.0, b.1))
  }

  lemma {:induction false} StringBodyRoundTrip(t: string, rest: string)
    ensures ParseStringBody(Escape(t) + "\"" + rest) == Some((t, rest))
    decreases |t|
  {
    if t == [] {
      assert Escape(t) + "\"" + rest == "\"" + rest;
    } else {
      var head := if t[0] == '"' || t[0] == '\\' then ['\\', t[0]] else [t[0]];
      var tail := Escape(t[1..]) + "\"" + rest;
      assert Escape(t) + "\"" + rest == head + tail;
      StringBodyRoundTrip(t[1..], rest);
      if t[0] == '"' || t[0] == '\\' {
        assert (head + tail)[2..] == tail;
      } else {
        assert (head + tail)[1..] == tail;
      }
      assert [t[0]] + t[1..] == t;
    }
  }

  /** Whatever `ParseStringBody` accepts is an escaped text, its closing quote
      and the rest. */
  lemma {:induction false} StringBodyConverse(s: string)
    requires ParseStringBody(s).Some?
    ensures s == Escape(ParseStringBody(s).value.0) + "\"" + ParseStringBody(s).value.1
    decreases |s|
  {
    var t := ParseStringBody(s).value.0;
    var rest := ParseStringBody(s).value.1;
    if s[0] == '"' {
      assert t == [] && s == "\"" + rest;
    } else if s[0] == '\\' {
      StringBodyConverse(s[2..]);
      assert t[1..] == ParseStringBody(s[2..]).value.0;
      assert s == ['\\', s[1]] + s[2..];
    } else {
      StringBodyConverse(s[1..]);
      assert t[1..] == ParseStringBody(s[1..]).value.0;
      assert s == [s[0]] + s[1..];
    }
  }

  /** `Some(rest)` when `s` starts with `lit`. */
  function Expect(lit: string, s: string): (r: Option<string>)
    ensures r.Some? <==> lit <= s
    ensures r.Some? ==> s == lit + r.value
  {
    if |lit| <= |s| && s[..|lit|] == lit then Some(s[|lit|..]) else None
  }

  lemma ExpectRoundTrip(lit: string, rest: string)
    ensures Expect(lit, lit + rest) == Some(rest)
  {
    assert (lit + rest)[..|lit|] == lit;
    assert (lit + rest)[|lit|..] == rest;
  }

  function EncodeName(n: Option<string>): string
  {
    match n
    case None => "null"
    case Some(t) => "\"" + Escape(t) + "\""
  }

  function ParseName(s: string): (r: Option<(Option<string>, string)>)
    ensures r.Some? ==> |r.value.1| < |s|
  {
    match Expect("null", s)
    case Some(rest) => Some((None, rest))
    case None =>
      var s1 :- Expect("\"", s);
      var b :- ParseStringBody(s1);
      Some((Some(b.0), b.1))
  }

  lemma NameRoundTrip(n: Option<string>, rest: string)
    ensures ParseName(EncodeName(n) + rest) == Some((n, rest))
  {
    match n
    case None =>
      ExpectRoundTrip("null", rest);
    case Some(t) =>
      var s := EncodeName(n) + rest;
      assert s == "\"" + (Escape(t) + "\"" + rest);
      assert s[0] == '"';
      ExpectRoundTrip("\"", Escape(t) + "\"" + rest);
      StringBodyRoundTrip(t, rest);
  }

  lemma NameConverse(s: string)
    requires ParseName(s).Some?
    ensures s == EncodeName(ParseName(s).value.0) + ParseName(s).value.1
  {
    match Expect("null", s)
    case Some(rest) =>
      assert s == "null" + rest;
    case None =>
      var s1 := Expect("\"", s).value;
      var b := ParseStringBody(s1).value;
      assert ParseName(s).value == (Some(b.0), b.1);
      StringBodyConverse(s1);
      assert s1 == Escape(b.0) + "\"" + b.1;
      assert s == "\"" + s1;
      assert EncodeName(Some(b.0)) == "\"" + Escape(b.0) + "\"";
  }

  // ----- products -----

  /** The text of `p` followed by `rest`. */
  function EncodeProductThen(p: Product, rest: string): string
  {
    "{\"Id\":" + (IntToString(p.id) + (",\"Name\":" + (EncodeName(p.name)
      + (",\"Price\":" + (IntToString(p.price) + ("}" + rest))))))
  }

  /** `JsonSerializer.Serialize(product)`: a text that is neither empty nor
      `null`, so a cached product is never taken for a miss. */
  function EncodeProduct(p: Product): (r: string)
    ensures r != [] && r[0] == '{' && r != "null"
  {
    EncodeProductThen(p, [])
  }

  function ParseProduct(s: string): (r: Option<(Product, string)>)
    ensures r.Some? ==> |r.value.1| < |s|
  {
    var s1 :- Expect("{\"Id\":", s);
    var id :- ParseInt(s1);
    var s2 :- Expect(",\"Name\":", id.1);
    var name :- ParseName(s2);
    var s3 :- Expect(",\"Price\":", name.1);
    var price :- ParseInt(s3);
    var s4 :- Expect("}", price.1);
    Some((Product(id.0, name.0, price.0), s4))
  }

  lemma {:induction false} ProductRoundTrip(p: Product, rest: string)
    ensures ParseProduct(EncodeProductThen(p, rest)) == Some((p, rest))
  {
    var s6 := "}" + rest;
    var s5 := IntToString(p.price) + s6;
    var s4 := ",\"Price\":" + s5;
    var s3 := EncodeName(p.name) + s4;
    var s2 := ",\"Name\":" + s3;
    var s1 := IntToString(p.id) + s2;
    ExpectRoundTrip("{\"Id\":", s1);
    IntRoundTrip(p.id, s2);
    ExpectRoundTrip(",\"Name\":", s3);
    NameRoundTrip(p.name, s4);
    ExpectRoundTrip(",\"Price\":", s5);
    IntRoundTrip(p.price, s6);
    ExpectRoundTrip("}", rest);
  }

  /** Whatever `ParseProduct` accepts is a product's text followed by the rest. */
  lemma ProductConverse(s: string)
    requires ParseProduct(s).Some?
    ensures s == EncodeProductThen(ParseProduct(s).value.0, ParseProduct(s).value.1)
  {
    var s1 := Expect("{\"Id\":", s).value;
    ParseIntConverse(s1);
    var s2 := Expect(",\"Name\":", ParseInt(s1).value.1).value;
    NameConverse(s2);
    var s3 := Expect(",\"Price\":", ParseName(s2).value.1).value;
    ParseIntConverse(s3);
  }

  /** `JsonSerializer.Deserialize<Product>`: `Null` for exactly the text
      `null`, a product for exactly the text `EncodeProduct` writes for it. */
  function DecodeProduct(s: string): (r: Decoded<Product>)
    ensures r.Null? <==> s == "null"
    ensures r.Value? ==> s == EncodeProduct(r.value)
  {
    if s == "null" then Null
    else match ParseProduct(s)
      case Some((p, rest)) =>
        if rest == [] then ProductConverse(s); Value(p) else Malformed
      case None => Malformed
  }

  /** Serializing a product gives a text that deserializes to the same product. */
  lemma ProductCodec(p: Product)
    ensures DecodeProduct(EncodeProduct(p)) == Value(p)
  {
    ProductRoundTrip(p, []);
  }

  // ----- lists of products -----

  /** The products of `ps` separated by commas, followed by `rest`. */
  function EncodeItemsThen(ps: seq<Product>, rest: string): string
    decreases |ps|
  {
    if ps == [] then rest
    else if |ps| == 1 then EncodeProductThen(ps[0], rest)
    else EncodeProductThen(ps[0], "," + EncodeItemsThen(ps[1..], rest))
  }

  /** `JsonSerializer.Serialize(list)`: a text that is neither empty nor
      `null`, so a cached list is never taken for a miss. */
  function EncodeList(ps: seq<Product>): (r: string)
    ensures r != [] && r[0] == '[' && r != "null"
  {
    "[" + EncodeItemsThen(ps, "]")
  }

  /** The products of a non-empty list body, up to and past its closing `]`. */
  function ParseItems(s: string): (r: Option<(seq<Product>, string)>)
    ensures r.Some? ==> |r.value.1| < |s|
    decreases |s|
  {
    var first :- ParseProduct(s);
    var rest := first.1;
    if rest != [] && rest[0] == ',' then
      var others :- ParseItems(rest[1..]);
      Some(([first.0] + others.0, others.1))
    else
      var after :- Expect("]", rest);
      Some(([first.0], after))
  }

  function ParseList(s: string): Option<(seq<Product>, string)>
  {
    var s1 :- Expect("[", s);
    if s1 != [] && s1[0] == ']' then Some(([], s1[1..])) else ParseItems(s1)
  }

  /** Whatever `ParseItems` accepts is a non-empty list's items, the closing
      `]` and the rest. */
  lemma {:induction false} ItemsConverse(s: string)
    requires ParseItems(s).Some?
    ensures ParseItems(s).value.0 != []
    ensures s == EncodeItemsThen(ParseItems(s).value.0, "]" + ParseItems(s).value.1)
    decreases |s|
  {
    var first := ParseProduct(s).value;
    ProductConverse(s);
    var rest := first.1;
    if rest != [] && rest[0] == ',' {
      var others := ParseItems(rest[1..]).value;
      ItemsConverse(rest[1..]);
      assert ParseItems(s) == Some(([first.0] + others.0, others.1));
      ItemsCons(first.0, others.0, "]" + others.1);
      assert rest == "," + rest[1..];
    } else {
      var after := Expect("]", rest).value;
      assert ParseItems(s) == Some(([first.0], after));
      assert EncodeItemsThen([first.0], "]" + after) == EncodeProductThen(first.0, "]" + after);
    }
  }

  /** Encoding a list with a first product and more after it. */
  lemma ItemsCons(p: Product, others: seq<Product>, rest: string)
    requires others != []
    ensures EncodeItemsThen([p] + others, rest) == EncodeProductThen(p, "," + EncodeItemsThen(others, rest))
  {
    var ps := [p] + others;
    assert ps[0] == p && ps[1..] == others;
  }

  /** One step of `ParseItems` when a product is followed by `,`. */
  lemma ParseItemsComma(s: string, p: Product, after: string)
    requires ParseProduct(s) == Some((p, "," + after))
    ensures ParseItems(s) == if ParseItems(after).Some?
                             then Some(([p] + ParseItems(after).value.0, ParseItems(after).value.1))
                             else None
  {
    assert ("," + after)[0] == ',' && ("," + after)[1..] == after;
  }

  /** One step of `ParseItems` when a product is followed by `]`. */
  lemma ParseItemsClose(s: string, p: Product, rest: string)
    requires ParseProduct(s) == Some((p, "]" + rest))
    ensures ParseItems(s) == Some(([p], rest))
  {
    ExpectRoundTrip("]", rest);
  }

  lemma {:induction false} ItemsRoundTrip(ps: seq<Product>, rest: string)
    requires ps != []
    ensures ParseItems(EncodeItemsThen(ps, "]" + rest)) == Some((ps, rest))
    decreases |ps|
  {
    if |ps| == 1 {
      assert [ps[0]] == ps;
      SingleItemRoundTrip(ps[0], rest);
    } else {
      assert [ps[0]] + ps[1..] == ps;
      ItemsRoundTrip(ps[1..], rest);
      ItemsRoundTripStep(ps[0], ps[1..], rest);
    }
  }

  /** `ItemsRoundTrip` for a one-product list. */
  lemma SingleItemRoundTrip(p: Product, rest: string)
    ensures ParseItems(EncodeItemsThen([p], "]" + rest)) == Some(([p], rest))
  {
    var s := EncodeItemsThen([p], "]" + rest);
    assert s == EncodeProductThen(p, "]" + rest);
    ProductRoundTrip(p, "]" + rest);
    ParseItemsClose(s, p, rest);
  }

  /** `ItemsRoundTrip` for a product put in front of a list that reads back. */
  lemma ItemsRoundTripStep(p: Product, others: seq<Product>, rest: string)
    requires others != []
    requires ParseItems(EncodeItemsThen(others, "]" + rest)) == Some((others, rest))
    ensures ParseItems(EncodeItemsThen([p] + others, "]" + rest)) == Some(([p] + others, rest))
  {
    var tail := EncodeItemsThen(others, "]" + rest);
    ItemsCons(p, others, "]" + rest);
    ProductRoundTrip(p, "," + tail);
    ParseItemsComma(EncodeItemsThen([p] + others, "]" + rest), p, tail);
  }

  /** Whatever `ParseList` accepts is a list's text followed by the rest. */
  lemma ListConverse(s: string)
    requires ParseList(s).Some?
    ensures s == "[" + EncodeItemsThen(ParseList(s).value.0, "]" + ParseList(s).value.1)
  {
    var s1 := Expect("[", s).value;
    if !(s1 != [] && s1[0] == ']') {
      ItemsConverse(s1);
    } else {
      assert s1 == "]" + s1[1..];
    }
  }

  /** `JsonSerializer.Deserialize<List<Product>>`: `Null` for exactly the
      text `null`, a list for exactly the text `EncodeList` writes for it. */
  function DecodeList(s: string): (r: Decoded<seq<Product>>)
    ensures r.Null? <==> s == "null"
    ensures r.Value? ==> s == EncodeList(r.value)
  {
    if s == "null" then Null
    else match ParseList(s)
      case Some((ps, rest)) =>
        if rest == [] then ListConverse(s); assert "]" + rest == "]"; Value(ps) else Malformed
      case None => Malformed
  }

  /** Serializing a list gives a text that deserializes to the same products
      in the same order. */
  lemma ListCodec(ps: seq<Product>)
    ensures DecodeList(EncodeList(ps)) == Value(ps)
  {
    var body := EncodeItemsThen(ps, "]");
    ExpectRoundTrip("[", body);
    if ps != [] {
      assert body[0] == '{';
      assert "]" + [] == "]";
      ItemsRoundTrip(ps, []);
    }
  }
}
