/** `ParseStringConverter`, the Newtonsoft converter that writes a `long` as
    a JSON string and reads it back with `Int64.TryParse`, and the `@`
    removal step of `ConverterJson.XmlToJson`.

    A JSON token is reduced to the two shapes the converter deals with:
    `null`, and a string (for a read, the string `Deserialize<string>` gives
    for the token).
 */
module JsonConverter {
  import opened Wrappers
  import opened Int64Text

  /** The `Type` handed to `CanConvert`. */
  datatype ClrType = Int64Type | NullableOf(underlying: ClrType) | OtherType(name: string)

  datatype JsonToken = JsonNull | JsonString(text: string)

  const UnmarshalMessage: string := "Cannot unmarshal type long"

  /** `CanConvert`: the converter handles `long` and `long?` and nothing else. */
  function CanConvert(t: ClrType): (r: bool)
    ensures r <==> t == Int64Type || t == NullableOf(Int64Type)
  {
    match t
    case Int64Type => true
    case NullableOf(u) => u.Int64Type?
    case OtherType(_) => false
  }

  /** `ReadJson`: null for a JSON null, the value when the string is a
      64-bit decimal, and an exception otherwise. */
  function ReadJson(token: JsonToken): (r: Raised<Option<Int64>>)
    ensures token.JsonNull? ==> r == Returned(None)
    // a string never reads as null
    ensures token.JsonString? && r.Returned? ==> r.value.Some?
    // the only failure is the unmarshal exception, raised exactly when TryParse refuses
    ensures r.Thrown? <==> token.JsonString? && TryParseInt64(token.text).None?
    ensures r.Thrown? ==> r.message == UnmarshalMessage
    // what is read is what TryParse reads
    ensures r.Returned? && r.value.Some? ==> TryParseInt64(token.text) == r.value
  {
    match token
    case JsonNull => Returned(None)
    case JsonString(text) =>
      match TryParseInt64(text)
      case Some(l) => Returned(Some(l))
      case None => Thrown(UnmarshalMessage)
  }

  /** `WriteJson`: a JSON null for null, and otherwise the decimal text of
      the value as a JSON string (not a JSON number). */
  function WriteJson(value: Option<Int64>): (token: JsonToken)
    ensures token.JsonNull? <==> value.None?
    // the text is a `-` exactly for negative values, then the canonical digits of the magnitude
    ensures token.JsonString? ==>
              var s := token.text;
              && |s| > 0
              && (s[0] == Minus <==> value.value < 0)
              && Canonical(if value.value < 0 then s[1..] else s)
              && DigitsValue(if value.value < 0 then s[1..] else s) == if value.value < 0 then -(value.value as int) else value.value
  {
    match value
    case None => JsonNull
    case Some(l) => JsonString(DecimalText(l))
  }

  /** Reading back what `WriteJson` wrote gives the value, for null and for
      every 64-bit integer including `long.MinValue` and `long.MaxValue`. */
  lemma ReadWriteRoundTrip(value: Option<Int64>)
    ensures ReadJson(WriteJson(value)) == Returned(value)
  {
    if value.Some? {
      ParseDecimalText(value.value);
    }
  }

  /** The digit strings of integers outside the 64-bit range are refused,
      like any malformed string. */
  lemma ReadRefusesOutOfRange(n: int)
    requires !InRange(n)
    ensures ReadJson(JsonString(DecimalText(n))) == Thrown(UnmarshalMessage)
  {
    ParseDecimalTextPadded(n, "", "", "");
    Unpadded(DecimalText(n));
  }

  /** Writing what was read gives the string back when it is in the form
      `WriteJson` produces. */
  lemma WriteReadRoundTrip(text: string)
    requires || Canonical(text)
             || (|text| > 1 && text[0] == Minus && Canonical(text[1..]) && text[1..] != "0")
    requires ReadJson(JsonString(text)).Returned?
    ensures WriteJson(ReadJson(JsonString(text)).value) == JsonString(text)
  {
    DecimalTextOfParse(text);
  }

  /* ---------------------------------------------------------------------
     XmlToJson.
     --------------------------------------------------------------------- */

  const At: char := '@'

  /** `Replace("@", "")`: the text with every `@` deleted. */
  function RemoveAt(s: string): (r: string)
    ensures forall i :: 0 <= i < |r| ==> r[i] != At
    ensures forall c :: c != At ==> multiset(r)[c] == multiset(s)[c]
    decreases |s|
  {
    if |s| == 0 then []
    else
      assert s == s[..|s| - 1] + [s[|s| - 1]];
      if s[|s| - 1] == At then RemoveAt(s[..|s| - 1])
      else RemoveAt(s[..|s| - 1]) + [s[|s| - 1]]
  }

  /** Removal works piecewise, so the characters that stay keep their order. */
  lemma {:induction false} RemoveAtAppend(a: string, b: string)
    ensures RemoveAt(a + b) == RemoveAt(a) + RemoveAt(b)
    decreases |b|
  {
    if |b| == 0 {
      assert a + b == a;
    } else {
      var init := b[..|b| - 1];
      assert (a + b)[..|a + b| - 1] == a + init;
      RemoveAtAppend(a, init);
    }
  }

  /** A text without `@` is left unchanged; in particular, removing twice is
      removing once. */
  lemma {:induction false} RemoveAtKeepsPlainText(s: string)
    requires forall i :: 0 <= i < |s| ==> s[i] != At
    ensures RemoveAt(s) == s
    decreases |s|
  {
    if |s| > 0 {
      RemoveAtKeepsPlainText(s[..|s| - 1]);
    }
  }

  /** `XmlToJson`: the JSON text of the XML document, with every `@` removed,
      is handed to the decoder; an exception from either step reaches the
      caller unchanged. */
  function XmlToJson<T>(xml: string, serializeXml: string -> Raised<string>, deserialize: string -> Raised<T>): (r: Raised<T>)
    ensures serializeXml(xml).Thrown? ==> r == Thrown(serializeXml(xml).message)
    ensures serializeXml(xml).Returned? ==> r == deserialize(RemoveAt(serializeXml(xml).value))
  {
    match serializeXml(xml)
    case Thrown(message) => Thrown(message)
    case Returned(json) => deserialize(RemoveAt(json))
  }
}
