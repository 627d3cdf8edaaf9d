# csharp-utils services, modelled in Dafny

This project models the core of the `Util.Services` helpers in C#:

- **`HttpProvider`**
  - `JoinUriSegments` builds a URI from a base and a list of path segments. It is a left fold that glues the accumulated URI to the next segment with one `/`. Before each glue step it strips every trailing `/` from the accumulator and every leading `/` from the segment.
  - The envelope logic of the HTTP helpers. An HTTP exchange becomes an `HttpResultData` envelope: a status code, a response body, and an optional decoded model (`ModelContext`) or model array (`ArrayModelContext`).
    - A caught exception is reported as status `-1` with the exception's message.
    - The two GETs decode the body only on status 200.
    - The array GET returns `null` for every other status.
- **`ParseStringConverter`** is the Newtonsoft converter that writes a `long` as a JSON string, using `long.ToString()`. It reads the value back with `Int64.TryParse` and throws "Cannot unmarshal type long" when parsing fails. The model also covers the `@`-removal step of `ConverterJson.XmlToJson`.
- **`BooleanToVisibilityConverter`**
  - `Convert` maps a boxed `true` to `Visible`. Anything else maps to `Collapsed` when the parameter is the string `"collapsed"`, and to `Hidden` otherwise.
  - `ConvertBack` always throws.

How the C# constructs are represented:

- Nullable references are `Option`s.
- A call that can throw returns `Raised`: either the returned value or the thrown message.
- An HTTP request is a `Request` value: the method, the URL, the accepted media types, and the optional body with its encoding and media type. It is the data the provider hands to the transport. `SendRequest` and `GetRequest` build it for the send and for the GET.
- The world outside the model is passed in as function parameters. This covers the HTTP transport (`HttpClient.SendAsync` plus the body read) and the JSON codec (serialize, deserialize, and XML-to-JSON). Every operation is therefore a total function of its inputs.
- `Int64Text` models .NET's decimal text of 64-bit integers under the invariant culture:
  - `long.ToString()`.
  - `Int64.TryParse` with `NumberStyles.Integer`. It accepts optional white space (space, U+0009..U+000D), one optional `+` or `-`, at least one ASCII digit, optional white space, and trailing NUL characters. A value outside the 64-bit range is refused.

Files:

| file | module | models |
|---|---|---|
| `wrappers.dfy` | `Wrappers` | `Option` (null) and `Raised` (return or throw) |
| `uri_segments.dfy` | `UriSegments` | `JoinUriSegments`, with a closed form of its fold |
| `http_provider.dfy` | `HttpProvider` | the send and GET operations and their envelopes |
| `int64_text.dfy` | `Int64Text` | `long.ToString()` and `Int64.TryParse` |
| `json_converter.dfy` | `JsonConverter` | `ParseStringConverter`, `@` removal, `XmlToJson` |
| `ui_converter.dfy` | `UIConverter` | `BooleanToVisibilityConverter` |

`TrimEnd('/')` removes every trailing `/` and `TrimStart('/')` every leading `/`, not just one. So each joint of a joined URI keeps exactly one `/`, however many the base and the segment had there.

## Model

| member | source | states |
|---|---|---|
| `UriSegments.TrimEnd` | services/HttpProvider.cs:182 | `TrimEnd('/')` returns the longest prefix that does not end in `/`, and only slashes are cut off |
| `UriSegments.TrimStart` | services/HttpProvider.cs:182 | `TrimStart('/')` returns the longest suffix that does not start with `/`, and only slashes are cut off |
| `UriSegments.JoinUriSegments` | services/HttpProvider.cs:174-183 | The result is null exactly when the base is null, empty or white space. With no segments (null or empty array), the base comes back unchanged. The only exception is a null element, and it is raised exactly when the base is not blank and some element is null |
| `UriSegments.JoinUriSegmentsClosedForm` | services/HttpProvider.cs:182 | For a non-blank base and non-null segments, the fold equals a closed form. It is the base without trailing slashes, then `/` plus the core of each inner segment that is not slashes only, then `/` plus the last segment without its leading slashes |
| `UriSegments.FoldClosedForm` | services/HttpProvider.cs:182 | The `Aggregate` fold from any seed equals the closed form |
| `UriSegments.TrimEndFold` | services/HttpProvider.cs:182 | After any number of glue steps, the accumulator without trailing slashes is the trimmed seed followed by one piece per segment |
| `UriSegments.TrimEndGlue` | services/HttpProvider.cs:182 | One glue step, trimmed, adds exactly the segment's piece to the trimmed accumulator. The piece is nothing for a slashes-only segment |
| `UriSegments.FoldSnoc` | services/HttpProvider.cs:182 | Folding over one more segment is one more glue step applied to the fold so far |
| `UriSegments.TrimEndAppend` | services/HttpProvider.cs:182 | `TrimEnd('/')` of a concatenation: the right part is trimmed unless it is slashes only, in which case the left part is trimmed |
| `UriSegments.JoinEndsWithLastSegment` | services/HttpProvider.cs:182 | The joined URI ends with `/` plus the last segment without its leading slashes, so the last segment's trailing slashes survive |
| `UriSegments.GlueIgnoresExtraSlashes` | services/HttpProvider.cs:182 | Extra slashes at the end of the accumulator or at the start of a segment do not change a glue step |
| `UriSegments.JoinEmptyLastSegment` | services/HttpProvider.cs:182 | An empty or slashes-only last segment leaves the joined URI ending in `/` |
| `UriSegments.JoinExample` | services/HttpProvider.cs:174-183 | `("http://h/", ["/a/", "b"])` joins to `"http://h/a/b"` |
| `HttpProvider.CatchHttpRequest` | services/HttpProvider.cs:109-113 | A response is copied. An `HttpRequestException` becomes status -1 with its message. Any other exception escapes |
| `HttpProvider.HttpSendJsonStreamMessage` | services/HttpProvider.cs:37-66 | The envelope holds the response's status and body, or -1 and the message of an `HttpRequestException`. Other exceptions escape, and no model is set |
| `HttpProvider.HttpSendMessage` | services/HttpProvider.cs:68-91 | Never throws and never sets a model. A serialization failure gives -1 and its message. Otherwise the exchange is reported: the response unchanged, or -1 and the message of any exception |
| `HttpProvider.HttpGetReponseMessage` | services/HttpProvider.cs:93-116 | A JSON GET whose status and body are copied. An `HttpRequestException` gives -1 and its message. Any other exception escapes |
| `HttpProvider.HTTPGetMessage` | services/HttpProvider.cs:118-143 | The model is set exactly when the status is 200 and the body decodes to a non-null object, and then it is that object. A 200 body that decodes keeps its status and text, and the model stays null when the decoder gives null. A status other than 200 is passed through unchanged. Any caught exception, from the transport or from decoding, gives -1 and its message |
| `HttpProvider.HTTPGetMessages` | services/HttpProvider.cs:145-172 | Returns null exactly for a status other than 200, including the -1 of an `HttpRequestException`. The array is set exactly when the status is 200 and the body decodes to a non-null array. A 200 body that decodes keeps its status and text, and the array stays null when the decoder gives null. Any other exception, or a decoding failure, gives a -1 envelope |
| `HttpProvider.EnvelopesWellFormed` | services/HttpProvider.cs:68-172 | Every envelope handed out sets at most one model field, and only on status 200 |
| `HttpProvider.FailureStatusMeansException` | services/HttpProvider.cs:118-143 | If no server answers -1, then a -1 from the object GET means exactly that an exception was caught |
| `HttpProvider.GetAsymmetry` | services/HttpProvider.cs:109-169 | On a transport exception the object GET gives a -1 envelope. The array GET gives null for an `HttpRequestException` and the same -1 envelope for any other exception |
| `HttpProvider.GetsAgreeOnEnvelope` | services/HttpProvider.cs:118-172 | Whenever the array GET returns an envelope, its status and body agree with the object GET's, given decoders that fail on the same bodies |
| `Int64Text.NatText` | services/JsonConverter.cs:60 | The digits written for a natural number are canonical (no superfluous leading zero) and denote that number |
| `Int64Text.DecimalText` | services/JsonConverter.cs:60 | `long.ToString()` writes `-` exactly for a negative value, then canonical digits that denote its magnitude |
| `Int64Text.TryParseInt64` | services/JsonConverter.cs:45 | `Int64.TryParse` accepts only number characters and only texts with at least one digit |
| `Int64Text.ParseShaped` | services/JsonConverter.cs:45 | White space, an optional `+` or `-`, one or more digits, white space and NULs parse to the signed value of the digits when it is in the 64-bit range, and are refused when it is not. Leading zeros, a `+` and `-0` are accepted |
| `Int64Text.TryParseShape` | services/JsonConverter.cs:45 | Every text `TryParse` accepts is white space, an optional `+` or `-`, one or more digits, white space and NULs, and the value is the signed value of the digits |
| `Int64Text.ParseDecimalTextPadded` | services/JsonConverter.cs:45 | `TryParse` of a written value, with any white space around it and NULs after it, gives the value back. It fails exactly when the value is outside the 64-bit range |
| `Int64Text.ParseDecimalText` | services/JsonConverter.cs:45 | `TryParse(n.ToString())` is `n` for every 64-bit value, `long.MinValue` and `long.MaxValue` included |
| `Int64Text.DecimalTextOfParse` | services/JsonConverter.cs:45 | A canonical decimal text that parses is exactly what `ToString` writes for the parsed value |
| `Int64Text.NatTextOfValue` | services/JsonConverter.cs:60 | Canonical digits are the only canonical digits that denote their value |
| `JsonConverter.CanConvert` | services/JsonConverter.cs:38 | True exactly for `long` and `long?` |
| `JsonConverter.ReadJson` | services/JsonConverter.cs:40-50 | A JSON null reads as null, and a string never does. The unmarshal exception is raised exactly when `TryParse` refuses the string. Otherwise the parsed value is returned |
| `JsonConverter.WriteJson` | services/JsonConverter.cs:52-62 | Null is written as a JSON null. A value is written as a JSON string: `-` exactly for a negative value, then canonical digits that denote its magnitude |
| `JsonConverter.ReadWriteRoundTrip` | services/JsonConverter.cs:40-62 | Reading what was written gives back null and every 64-bit value |
| `JsonConverter.ReadRefusesOutOfRange` | services/JsonConverter.cs:45-49 | The digits of an integer outside the 64-bit range read as the unmarshal exception |
| `JsonConverter.WriteReadRoundTrip` | services/JsonConverter.cs:40-62 | Writing what was read gives back any string in the written form |
| `JsonConverter.RemoveAt` | services/JsonConverter.cs:19 | `Replace("@", "")` leaves no `@` and keeps every other character, with the same count |
| `JsonConverter.RemoveAtAppend` | services/JsonConverter.cs:19 | Removal works piece by piece, so the remaining characters keep their order |
| `JsonConverter.RemoveAtKeepsPlainText` | services/JsonConverter.cs:19 | A text without `@` is unchanged, so removing twice is the same as removing once |
| `JsonConverter.XmlToJson` | services/JsonConverter.cs:15-21 | The decoder receives the JSON text of the XML with every `@` removed. An exception from either step reaches the caller unchanged |
| `UIConverter.Convert` | services/UIConverter.cs:10-16 | `Visible` exactly for a boxed `true`. `Collapsed` exactly when the value is not `true` and the parameter is the string `"collapsed"`. `Hidden` in every other case |
| `UIConverter.ConvertBack` | services/UIConverter.cs:18-21 | Always throws `NotImplementedException` |
| `UIConverter.ConvertIgnoresTargetAndCulture` | services/UIConverter.cs:10-16 | The target type and the culture never change the result |
| `UIConverter.NonBooleanIsFalse` | services/UIConverter.cs:12 | A value that is not a boolean converts the same way as `false` |
| `UIConverter.CollapsedIsCaseSensitive` | services/UIConverter.cs:13 | The parameter is compared case-sensitively: `"Collapsed"` gives `Hidden` |

## Left out

- The `AsyncLock` around each public operation. Each operation is modelled as one atomic step. Concurrency, and the `async`/`await` scheduling, are not modelled.
- The `HttpProvider` constructor: the `HttpClient` set-up, the certificate-validation bypass and the timeout. They only configure the transport, which is a parameter here.
- The network exchange itself. `HttpClient.SendAsync` and `ReadAsStringAsync` are a transport function from the request to a response (status and body text) or an exception.
- Failures while building a request become exceptions of the transport. This covers an unknown encoding name in `Encoding.GetEncoding`, an invalid method token, and an invalid URL. They are counted as kinds other than `HttpRequestException`, as the C# code treats them.
- The Newtonsoft calls: `SerializeObject`, `DeserializeObject`, `SerializeXmlNode`, and the `Converter.Settings` they use. They are functions passed in that return or throw.
- `XmlDocument.LoadXml` is part of the XML-to-JSON parameter.
- The `HttpResultData` class is not part of this model. Its model fields are taken to be null until assigned. A decoder that returns null is modelled as one that returns `None`.
- `HttpProvider.HttpSendMessage` and `HttpProvider.HttpSendJsonStreamMessage` take the method as a required argument. The C# default of `"POST"` for an omitted method is not modelled, because it only matters at call sites.
- `Int64Text.TryParseInt64`: its own contract states only necessary conditions for acceptance. The full grammar and the value are stated by `Int64Text.ParseShaped` and `Int64Text.TryParseShape`, one lemma for each direction.
- `ReadJson` on tokens other than null and strings, such as a JSON number, which Newtonsoft's `Deserialize<string>` coerces to text. The model's token is the text that call yields.
- `WriteJson` on a boxed value that is not a `long`, which throws `InvalidCastException`. The model's argument is an optional `long`.
- Culture: `Int64.TryParse` and `long.ToString()` are modelled under the invariant culture. `Convert`'s culture argument is unused in the source.
- `UriSegments.IsNullOrWhiteSpace` uses the white-space set of `char.IsWhiteSpace`. Unicode categories are written out as the characters they contain, not derived from a Unicode database.
