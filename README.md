# bazzounquester in Dafny

bazzounquester is a command-line HTTP client. It builds a request from a
method, a URL, raw `Key:Value` header lines, `key=value` query items, an
optional body or form, and an authentication scheme: Basic, Bearer, API key
or OAuth 2.0. It sends the request and shows the response. Around that core
it offers:

- assertions on responses, using a closed set of matchers;
- `{{NAME}}` placeholder substitution from named environments;
- request chains, which run a list of steps for several passes;
- a script context for pre-request and post-response hooks;
- a bounded request history;
- sessions with cookie jars;
- saved collections of requests in folders, grouped into workspaces;
- URL-encoded and multipart form uploads.

This project models that core in Dafny and proves what its code promises.
There is one module per source file.

- **Values.** Immutable values and builder-style code become datatypes and
  functions. This covers JSON, matchers, assertions, auth schemes, requests
  and responses, steps, chains, cookies, folders and collections.
- **Objects.** Objects whose methods change their own fields become classes
  whose methods carry `modifies` clauses. This covers the script context,
  the validation report, the execution result, the environment and its
  manager, the history logger, the cookie jar, sessions, the session
  manager, form data, the multipart builder and the workspace.
- **Outside world.** The HTTP transport, the script engine, the JSON parser,
  the regular-expression engine and the clock are parameters.

The workflow executor runs each step as follows:

1. It runs the pre-request hook.
2. It substitutes the variable pool, as the hook left it, into the step.
3. It sends the request.
4. It runs the post-response hook.
5. It checks the step's assertions.
6. It stores the JSON-path extractions back into the pool.

The executor is proved against `Executor.Run`, a function that gives the
step results and the final pool of a whole run. Lemmas about that function
state the following:

- the stop-on-failure and continue-on-error policy;
- the iteration count;
- that overall success is the conjunction of the step results;
- that an extracted value reaches the next step's URL.

Hash maps iterate in an order the program does not fix. Wherever that order
shows in the output (header lines, query items, cookie headers), the order
is an explicit parameter that lists each key once.

## Model

| member | source | states |
|---|---|---|
| Text.TrimStart | src/http/request.rs:136-137 | the result is a suffix of the input, every character dropped is whitespace and the result does not start with whitespace; it is empty exactly when the input is blank |
| Text.TrimEnd | src/http/request.rs:136-137 | the result is a prefix of the input, every character dropped is whitespace and the result does not end with whitespace; it is empty exactly when the input is blank |
| Text.Trim | src/http/request.rs:136-137 | the result is no longer than the input, neither starts nor ends with whitespace, and is empty exactly when the input is blank |
| Text.TrimNoEdges | src/session/cookies.rs:97-98 | a text without whitespace at either end is its own trim |
| Text.AsciiLowerStr | src/session/cookies.rs:104 | same length, each ASCII capital lowered and every other character kept |
| Text.StripPrefix | src/auth/basic.rs:39 | present exactly when the text starts with the prefix, and then the prefix followed by the result is the text |
| Text.StripPrefixAppend | src/auth/basic.rs:39 | a prefix written in front of a text strips off again, leaving that text |
| Text.TrimStartMatches | src/assertions/validator.rs:259 | the result is a suffix of the input that no longer starts with the (non-empty) pattern |
| Text.CountCharAppend | src/auth/bearer.rs:62-64 | the count of a character in a concatenation is the sum of the counts |
| Text.IndexOf | src/http/request.rs:135 | none exactly when the character is absent; otherwise the position of its first occurrence |
| Text.SplitOnce | src/http/request.rs:135 | none exactly when the separator is absent; otherwise head, separator and tail rebuild the text and the head has no separator |
| Text.SplitOnceAt | src/http/request.rs:162 | a separator-free head, the separator and any tail split once into that head and tail |
| Text.Split | src/assertions/validator.rs:260 | at least one piece, no piece holds the separator, and the pieces joined by the separator rebuild the text |
| Text.SplitJoin | src/assertions/validator.rs:260 | splitting the join of separator-free pieces gives the pieces back |
| Text.SplitNoSeparator | src/assertions/validator.rs:260 | a text without the separator splits into itself alone |
| Text.NatToString | src/assertions/validator.rs:133 | a non-empty digit string with no leading zero unless the number is zero; its digits denote the number |
| Text.IntToString | src/assertions/validator.rs:278 | non-empty, starting with '-' exactly when the number is negative |
| Text.NatToStringValue | src/assertions/validator.rs:133 | the digits of the rendering denote the number rendered |
| Text.ParseUnsigned | src/assertions/matcher.rs:213 | a value only for an optional '+' followed by one or more ASCII digits |
| Text.ParseSigned | src/assertions/matcher.rs:183 | a negative value only for text starting with '-' |
| Text.ParseI64 | src/assertions/matcher.rs:183 | a value only inside the 64-bit signed range |
| Text.ParseUsize | src/assertions/matcher.rs:213 | a value only up to the largest 64-bit unsigned number |
| Text.ParseNegative | src/assertions/matcher.rs:183 | "-" followed by the digits of a positive number parses to its negation |
| Text.ParseSignedIntToString | src/assertions/validator.rs:278 | rendering any integer and parsing it back gives the same integer |
| Text.ParseI64IntToString | src/assertions/matcher.rs:183 | rendering an i64 and parsing it as an i64 gives it back |
| Text.ParseUsizeNatToString | src/assertions/matcher.rs:213-214 | rendering a usize and parsing it as a usize gives it back |
| Text.ParseRejectsNonDigit | src/assertions/matcher.rs:183-213 | a text holding a character that is neither a sign nor a digit parses as neither an i64 nor a usize |
| Utf8.CharLen | src/assertions/matcher.rs:214 | one character takes between one and four bytes |
| Utf8.Len | src/assertions/matcher.rs:214 | the byte length is at least the number of characters and is zero exactly for the empty text |
| Utf8.LenAppend | src/assertions/matcher.rs:214 | the byte length of a concatenation is the sum of the byte lengths |
| Utf8.EncodeChar | src/upload/multipart.rs:75 | a character's bytes number as many as its byte length says |
| Utf8.Encode | src/upload/multipart.rs:75 | the bytes of a text number exactly its byte length |
| Utf8.EncodeAppend | src/upload/multipart.rs:68-103 | the bytes of a concatenation are the concatenation of the bytes |
| Utf8.DecodeChar | src/auth/basic.rs:48 | a decoded character takes at least one and at most the available bytes |
| Utf8.DecodeEncodeChar | src/auth/basic.rs:48 | decoding the bytes of one character, whatever follows them, gives the character and its byte length |
| Utf8.DecodeEncode | src/auth/basic.rs:48 | decoding the bytes of any text gives that text back |
| Utf8.DecodeRejectsBadLead | src/auth/basic.rs:48 | bytes that start with a continuation byte, an overlong lead byte or a byte above 0xF4 are not UTF-8 |
| Utf8.EncodeAscii | src/upload/multipart.rs:68-103 | ASCII text is its own encoding, one byte per character |
| Base64.CharCode | src/auth/basic.rs:42-46 | a character that has a code is the character of that code |
| Base64.CharCodeOfCodeChar | src/auth/basic.rs:42-46 | every code's character reads back as that code |
| Base64.Parse | src/auth/basic.rs:42-46 | one code per character, and none exactly when some character is outside the alphabet |
| Base64.ParseRender | src/auth/basic.rs:22-46 | parsing rendered codes gives the codes back |
| Base64.Codes | src/auth/basic.rs:22-28 | the codes come in whole groups of four, at least one group for non-empty input |
| Base64.Encode | src/auth/basic.rs:22-28 | the encoded text's length is a multiple of four |
| Base64.Decode | src/auth/basic.rs:42-46 | a result only for text whose length is a multiple of four, and none when some character is outside the alphabet |
| Base64.RejoinFirst | src/auth/basic.rs:42-46 | the first byte of a group is rebuilt from its first two codes |
| Base64.RejoinSecond | src/auth/basic.rs:42-46 | the second byte of a group is rebuilt from its second and third codes |
| Base64.RejoinThird | src/auth/basic.rs:42-46 | the third byte of a group is rebuilt from its last two codes |
| Base64.DecodeCodesCons | src/auth/basic.rs:42-46 | a full group in front of decodable codes decodes to its three bytes in front of theirs |
| Base64.DecodeCodesOfCodes | src/auth/basic.rs:22-46 | the codes of any bytes decode back to those bytes |
| Base64.DecodeEncode | src/auth/basic.rs:22-46 | decoding what the encoder wrote gives the bytes back |
| Base64.EncodeAlphabet | src/auth/basic.rs:22-28 | the encoder writes only alphabet and pad characters |
| Errors.Display | src/error.rs:39-53 | the rendering is the kind's label followed by the message, which can be read back from it |
| Json.Get | src/assertions/validator.rs:266 | a value exactly when some member of the object has the key |
| Json.EscapeChar | src/assertions/validator.rs:281 | one character is written as one to six characters, none of them a control character, and it is kept as itself exactly when it needs no escape |
| Json.Escape | src/assertions/validator.rs:281 | the escaped body is at least as long as the text and holds no control character |
| Json.CompactString | src/assertions/validator.rs:281 | the compact form of a string value is its text between quotes when the text needs no escape |
| Json.Parts | src/assertions/validator.rs:259-260 | at least one part, none holding '.' |
| Json.Descend | src/assertions/validator.rs:262-274 | the document itself for no parts; none as soon as a step meets a non-object |
| Json.LeafText | src/assertions/validator.rs:276-282 | strings bare, booleans as "true"/"false", null as "null", and numbers as text that parses back to the number |
| Json.ExtractJsonPath | src/assertions/validator.rs:257-283 | the loop that walks the parts returns exactly the specified extraction: "" when a step fails, the leaf's rendering otherwise |
| Json.ExtractAll | src/workflow/executor.rs:232-239 | one entry per extracted name, holding the extraction at that name's path |
| Json.ExtractAllUpdate | src/workflow/executor.rs:232-239 | one more path adds exactly that name's extracted value |
| Json.TrimDollar | src/assertions/validator.rs:259 | "$." before a text not itself starting with "$." strips to that text |
| Json.ExtractNest | src/assertions/validator.rs:257-283 | following "$.k1.k2…" through objects nesting a value under k1, k2, … reaches that value and renders it |
| Json.PartsDropsPrefixes | src/assertions/validator.rs:259-260 | every leading "$." is removed, and a path without them is read as is |
| Json.ExtractNonObject | src/assertions/validator.rs:264-272 | any step on a value that is not an object gives "" |
| Json.PathParts | src/assertions/validator.rs:259-260 | "$.a.b" with dot-free a and b gives the parts [a, b] |
| Json.PathPart | src/assertions/validator.rs:259-260 | "$.a" with a dot-free a not starting with '$' gives the single part a |
| Json.ExtractMember | src/assertions/validator.rs:257-283 | "$.k" on an object gives the rendering of member k, or "" when there is none |
| Maps.MapValues | src/workflow/executor.rs:232-239 | same keys, each value the function applied to the original value |
| Maps.MapValuesUpdate | src/workflow/executor.rs:232-239 | updating a key and then mapping equals mapping and then updating that key |
| BasicAuth.Encode | src/auth/basic.rs:22-28 | the header payload is the standard base64 of the UTF-8 bytes of "username:password", and it decodes back to exactly those bytes |
| BasicAuth.ApplyToHeaders | src/auth/basic.rs:31-34 | exactly one "Authorization:Basic <payload>" line is appended; the earlier lines are kept in order |
| BasicAuth.Payload | src/auth/basic.rs:38-39 | the payload is the value after a leading "Basic ", or the whole value when it has no such prefix |
| BasicAuth.FromHeader | src/auth/basic.rs:37-54 | none when the payload is not valid base64, when the bytes are not UTF-8 or when the text has no ':'; otherwise the credentials are the text split at its first ':' |
| BasicAuth.EncodeUnprefixed | src/auth/basic.rs:22-39 | an encoded payload never itself starts with "Basic ", so the prefix strip cannot eat into it |
| BasicAuth.FromHeaderEncode | src/auth/basic.rs:22-54 | decoding what `encode` wrote, with or without the "Basic " prefix, gives the same credentials back whenever the username has no ':' |
| BasicAuth.FromHeaderOfText | src/auth/basic.rs:37-54 | a payload that is the base64 of a text's UTF-8 bytes yields that text split at its first ':' |
| BasicAuth.CredentialsAround | src/auth/basic.rs:51-53 | a username containing ':' joined with its password splits at the username's first ':' |
| BasicAuth.FromHeaderSplitsAtFirstColon | src/auth/basic.rs:22-54 | a username containing ':' does not survive the round trip: it comes back cut at its first ':' and the rest moves into the password |
| BasicAuth.FromHeaderRejects | src/auth/basic.rs:42-46 | a payload whose length is not a multiple of four, or which holds a character outside the base64 alphabet, yields none |
| BasicAuth.EncodeUserPass | src/auth/basic.rs:70-74 | "user" and "pass" encode to "dXNlcjpwYXNz" |
| BearerAuth.New | src/auth/bearer.rs:17-22 | a new bearer auth carries the token and the prefix "Bearer" |
| BearerAuth.WithPrefix | src/auth/bearer.rs:25-30 | the token and the given prefix are kept as given |
| BearerAuth.TokenOnly | src/auth/bearer.rs:33-38 | the token is kept and there is no prefix |
| BearerAuth.ApplyToHeaders | src/auth/bearer.rs:41-48 | exactly one line "Authorization:<prefix> <token>", or "Authorization:<token>" without a prefix, is appended after the earlier lines |
| BearerAuth.FromHeader | src/auth/bearer.rs:51-59 | never fails; a value with a space splits at its first space into prefix and token, a value without one is a bare token |
| BearerAuth.FromHeaderValue | src/auth/bearer.rs:41-59 | reading back the value `apply_to_headers` wrote gives the same auth when the prefix (or a bare token) has no space |
| BearerAuth.FromHeaderSplitsTokenOnly | src/auth/bearer.rs:41-59 | a bare token containing a space does not survive: it is read back as a prefix and a shorter token |
| BearerAuth.IsJwtSegments | src/auth/bearer.rs:62-64 | three dot-free segments joined by dots count as a JWT; a token without dots does not |
| BearerAuth.IsJwt | src/auth/bearer.rs:62-64 | no contract of its own: `BearerAuth.IsJwtSegments` states that three dot-free segments joined by dots count and a dot-free token does not |
| ApiKeyAuth.HeaderKey | src/auth/api_key.rs:30-36 | the key goes in a header under the given name |
| ApiKeyAuth.QueryKey | src/auth/api_key.rs:39-45 | the key goes in a query parameter under the given name |
| ApiKeyAuth.XApiKey | src/auth/api_key.rs:60-62 | the key goes in the "X-API-Key" header |
| ApiKeyAuth.ApiKeyQuery | src/auth/api_key.rs:64-66 | the key goes in the "api_key" query parameter |
| ApiKeyAuth.AppIdHeader | src/auth/api_key.rs:68-70 | the key goes in the "X-App-ID" header |
| ApiKeyAuth.Apply | src/auth/api_key.rs:48-57 | one item is appended to the list the location names, "name:key" for a header and "name=key" for a query parameter; the other list is unchanged |
| ApiKeyAuth.ApplyReadsBack | src/auth/api_key.rs:48-57 | the appended item splits back at its first separator into the name and the key whenever the name holds no separator |
| OAuth2Auth.NewToken | src/auth/oauth2.rs:46-54 | a new token holds the access token and type given, and no expiry, refresh token or scopes |
| OAuth2Auth.New | src/auth/oauth2.rs:126-136 | a new auth has the grant type and client id and nothing else |
| OAuth2Auth.ApplyToHeaders | src/auth/oauth2.rs:169-175 | "Authorization:<type> <token>" is appended exactly when the auth holds a token that has not expired; otherwise nothing changes |
| OAuth2Auth.NoExpiry | src/auth/oauth2.rs:75-91 | a token without an expiry never expires and never needs a refresh |
| OAuth2Auth.ExpiredNeedsRefresh | src/auth/oauth2.rs:75-91 | an expired token always needs a refresh; a token that needs none is still valid 300 seconds later |
| OAuth2Auth.FreshExpiration | src/auth/oauth2.rs:57-91 | right after `with_expiration(n)` the token is expired exactly when n <= 0 and needs a refresh exactly when n <= 300 |
| OAuth2Auth.ExpiryMonotone | src/auth/oauth2.rs:75-81 | once a token has expired it stays expired at every later instant |
| OAuth2Auth.EqIsEquivalence | src/auth/oauth2.rs:188-192 | the equality is reflexive, symmetric and transitive, and ignores the token, the URLs and the scopes |
| OAuth2Auth.WithExpiration | src/auth/oauth2.rs:57-60 | no contract of its own: `OAuth2Auth.FreshExpiration` states that right after it the token is expired exactly when the lifetime is not positive and needs a refresh exactly when it is at most 300 seconds |
| OAuth2Auth.IsExpired | src/auth/oauth2.rs:75-82 | no contract of its own: `OAuth2Auth.NoExpiry` (never without an expiry), `OAuth2Auth.ExpiryMonotone` (stays expired) and `OAuth2Auth.FreshExpiration` state its meaning |
| OAuth2Auth.NeedsRefresh | src/auth/oauth2.rs:84-92 | no contract of its own: `OAuth2Auth.ExpiredNeedsRefresh` states that an expired token needs a refresh and a token that needs none is still valid 300 seconds later; `OAuth2Auth.NoExpiry` that a token without an expiry never needs one |
| OAuth2Auth.ToHeaderValue | src/auth/oauth2.rs:94-96 | no contract of its own: `OAuth2Auth.ApplyToHeaders` states that it is what follows "Authorization:" in the appended line |
| OAuth2Auth.IsValid | src/auth/oauth2.rs:178-185 | no contract of its own: `OAuth2Auth.ApplyToHeaders` states that a line is appended exactly when it holds |
| OAuth2Auth.Eq | src/auth/oauth2.rs:188-192 | no contract of its own: `OAuth2Auth.EqIsEquivalence` states that it is an equivalence that ignores the token, the URLs and the scopes |
| Auth.Apply | src/auth/mod.rs:37-45 | each scheme's own apply on the header and query lists; lists only grow at their end, by one item at most, and only the API-key scheme in query position touches the query list |
| Auth.DefaultAddsNothing | src/auth/mod.rs:37-50 | the default scheme is not configured and adds nothing to either list |
| Auth.IsConfigured | src/auth/mod.rs:48-50 | no contract of its own: `Auth.DefaultAddsNothing` states that the default scheme is not configured, `Request.ApplyAuth` that an unconfigured scheme adds nothing |
| Request.UpperChar | src/http/request.rs:39 | one character's upper case is one to three characters |
| Request.FromStr | src/http/request.rs:38-49 | a method exactly when the upper case of the text is that method's name; otherwise `UnsupportedMethod` carrying the text as given, and no method has that name |
| Request.UpperOfUpper | src/http/request.rs:39 | upper-casing an upper-case ASCII word leaves it unchanged |
| Request.UpperOfLower | src/http/request.rs:39 | upper-casing undoes ASCII lower-casing |
| Request.MethodNameUpper | src/http/request.rs:25-35 | every method's name is upper-case ASCII |
| Request.FromStrAsStr | src/http/request.rs:25-49 | each method's name parses back to that method, both as written and lower-cased |
| Request.New | src/http/request.rs:66-76 | the method and URL given, no headers, query items, body or form, and no configured authentication |
| Request.BulkIsRepeated | src/http/request.rs:79-100 | `headers(hs)` is `header` applied to each line in turn, and `queries(qs)` is `query` applied to each item in turn |
| Request.BuildersCommute | src/http/request.rs:79-124 | each builder changes only its own field, so builders on different fields commute, and a later body, form or scheme replaces an earlier one |
| Request.Header | src/http/request.rs:79-83 | no contract of its own: `Request.BuildersCommute` states that it changes only the headers, `Request.BulkIsRepeated` that `headers` is it repeated |
| Request.Headers | src/http/request.rs:85-89 | no contract of its own: `Request.BulkIsRepeated` states that it is `header` applied to each line in turn |
| Request.Query | src/http/request.rs:91-95 | no contract of its own: `Request.BuildersCommute` states that it changes only the query items, `Request.BulkIsRepeated` that `queries` is it repeated |
| Request.Queries | src/http/request.rs:97-101 | no contract of its own: `Request.BulkIsRepeated` states that it is `query` applied to each item in turn |
| Request.Body | src/http/request.rs:103-107 | no contract of its own: `Request.BuildersCommute` states that it changes only the body and that a later body replaces an earlier one |
| Request.WithForm | src/http/request.rs:109-113 | no contract of its own: `Request.BuildersCommute` states that it commutes with `body` and that a later form replaces an earlier one |
| Request.WithAuth | src/http/request.rs:120-124 | no contract of its own: `Request.BuildersCommute` states that it commutes with `query` and that a later scheme replaces an earlier one |
| Request.ApplyAuth | src/http/request.rs:126-128 | both lists keep their earlier items as a prefix and may only grow; without a configured scheme nothing changes |
| Request.ParseBody | src/http/request.rs:176-183 | no body gives nothing; a body is parsed as JSON, and a parse failure is an `InvalidJson` error carrying the parser's message |
| Request.CollectOk | src/http/request.rs:131-173 | inserting the items in order succeeds exactly when every item reads as an entry |
| Request.CollectFirstBad | src/http/request.rs:131-173 | when some item does not read, the result names the first such item |
| Request.CollectLastWins | src/http/request.rs:131-173 | on success a key is present exactly when some item gives it, and it holds the value of the last such item |
| Request.ReadHeader | src/http/request.rs:135-141 | a line reads as an entry exactly when it has a ':' |
| Request.ReadQuery | src/http/request.rs:162 | an item reads as an entry exactly when it has a '=' |
| Request.CollectEntries | src/http/request.rs:161-172 | the insertion loop returns exactly `Collect` of the items: every entry inserted in order, the later entry for a key replacing the earlier, or the first item that does not read |
| Request.ParseHeaders | src/http/request.rs:131-155 | returns exactly the specified header map: each line split at its first ':', both sides trimmed, the name lower-cased, later lines replacing earlier ones; the first line without ':' is an `InvalidHeader` error naming it |
| Request.ParseQueryParams | src/http/request.rs:158-173 | returns exactly the specified query map: each item split at its first '=', later items replacing earlier ones; the first item without '=' is an `InvalidQuery` error naming it |
| Request.CollectStops | src/http/request.rs:131-173 | once a prefix of the items fails, the whole list fails the same way |
| Request.CollectStep | src/http/request.rs:131-173 | one more item either stops the collection at that item or adds its entry |
| Request.ReadQueryPair | src/http/request.rs:162 | "key=value" reads as (key, value) when the key has no '=' |
| Request.CollectErrors | src/http/request.rs:131-173 | collecting fails exactly when some item does not read, and then names the first such item |
| Request.HeaderErrors | src/http/request.rs:131-155 | header parsing fails exactly when some line has no ':', with an error naming the first such line |
| Request.QueryErrors | src/http/request.rs:158-173 | query parsing fails exactly when some item has no '=', with an error naming the first such item |
| Request.QueryLastWins | src/http/request.rs:158-173 | on success the query map holds a key exactly when some item has that key before its first '=', with the value of the last such item |
| Request.HeaderLastWins | src/http/request.rs:131-155 | on success the header map holds a name exactly when some line's trimmed, lower-cased name is it, with the trimmed value of the last such line |
| Response.StatusColor | src/http/response.rs:48-56 | "green" exactly for 2xx, "red" exactly for 4xx and 5xx, "yellow" for every other class |
| Response.ClassesDisjoint | src/http/response.rs:33-45 | a status is in at most one of the success, client-error and server-error classes |
| Response.IsSuccess | src/http/response.rs:33-35 | no contract of its own: `Response.ClassesDisjoint` states that it excludes both error classes, `Response.StatusColor` that it is exactly the "green" case |
| Response.IsClientError | src/http/response.rs:38-40 | no contract of its own: `Response.ClassesDisjoint` states that it excludes the other two classes, `Response.StatusColor` that it is "red" |
| Response.IsServerError | src/http/response.rs:43-45 | no contract of its own: `Response.ClassesDisjoint` states that it excludes the other two classes, `Response.StatusColor` that it is "red" |
| Response.PrettyBody | src/http/response.rs:59-74 | an empty body stays empty, a JSON body is re-printed with two-space indentation, any other body is returned as it is |
| Response.IsJson | src/http/response.rs:77-79 | no contract of its own: `Response.PrettyBody` states that a body it accepts is re-printed by the JSON printer |
| CommandParser.FlagOf | src/cli/parser.rs:32-56 | "-H"/"--header", "-q"/"--query" and "-b"/"--body" name exactly the header, query and body options |
| CommandParser.Parse | src/cli/parser.rs:18-67 | no arguments is a `MissingArgument` error with the usage text; an unknown method is its `UnsupportedMethod` error; on success the URL is the first argument and the method the one parsed |
| CommandParser.OptionsKeep | src/cli/parser.rs:30-64 | options never change the method or the URL |
| CommandParser.ParseHttpCommand | src/cli/parser.rs:18-67 | the loop, advancing two arguments per option, returns exactly the specified parse |
| CommandParser.OptionsOk | src/cli/parser.rs:30-64 | well-formed options succeed: header and query values are appended after the builder's own in the order given, and the last body wins |
| CommandParser.WellFormedStep | src/cli/parser.rs:30-64 | well-formed options start with a flag followed by its value and go on well formed |
| CommandParser.ValuesStep | src/cli/parser.rs:30-64 | one option moves its value from the pending values onto the builder |
| CommandParser.OptionsErr | src/cli/parser.rs:30-64 | malformed options fail at the first bad position: an unknown argument is `InvalidCommand("Unknown option: …")`, a flag with nothing after it is the flag's `MissingArgument` |
| CommandParser.OptionsOkIff | src/cli/parser.rs:30-64 | parsing the options succeeds exactly when they are well formed |
| Form.FormData.constructor | src/upload/form.rs:25-29 | a new form has no fields |
| Form.FormData.AddText | src/upload/form.rs:32-34 | the name now holds the text and every other name keeps its field; the count grows by one only for a new name |
| Form.FormData.AddFile | src/upload/form.rs:37-39 | the name now holds the path and every other name keeps its field; the count grows by one only for a new name |
| Form.FormData.Get | src/upload/form.rs:42-44 | a field exactly when the name is present, and then the field it holds |
| Form.FormData.Remove | src/upload/form.rs:47-49 | returns the field the name held, if any; the name is gone afterwards and the count drops by one exactly when something was removed |
| Form.FormData.WithText | src/upload/form.rs:118-121 | `add_text` on the same form, which is handed back |
| Form.FormData.WithFile | src/upload/form.rs:124-127 | `add_file` on the same form, which is handed back |
| Form.Partition | src/upload/form.rs:90-115 | the text and file fields are disjoint, together cover every name, their sizes add up to the count, and each keeps the value or path its name holds |
| Form.HasFilesIffFileFields | src/upload/form.rs:83-115 | the form has files exactly when its file fields are not empty |
| Form.HasFilesAfterAdd | src/upload/form.rs:32-87 | adding a file makes the form have files; adding a text under a new name leaves the answer as it was |
| Form.HexValue | src/upload/form.rs:137 | a hex digit of either case has a value below 16 |
| Form.HexRoundTrip | src/upload/form.rs:137 | every value below 16 is written as an upper-case digit that reads back as that value |
| Form.PercentByte | src/upload/form.rs:137 | three characters: '%' and two upper-case hex digits whose value is the byte |
| Form.UrlEncodeChar | src/upload/form.rs:134-138 | a kept character (A-Z, a-z, 0-9, '-', '_', '.', '~') exactly when it stays as is, a space exactly when it becomes '+', anything else "%HH" of the low byte of its code point; the output uses only kept characters, '+', '%' and hex digits |
| Form.UrlEncode | src/upload/form.rs:132-140 | the output uses only kept characters, '+', '%' and hex digits, and each input character becomes one or three output characters |
| Form.UrlEncodeCollides | src/upload/form.rs:132-140 | the texts "Ā" (U+0100) and "\u{0}" both encode as "%00", so the encoder as written loses information |
| Form.EncodeByte | src/upload/form.rs:132-140 | one byte is written only with kept characters, '+', '%' and hex digits |
| Form.EncodeBytes | src/upload/form.rs:132-140 | a byte string is written only with kept characters, '+', '%' and hex digits |
| Form.FormEncode | src/upload/form.rs:132-140 | the corrected encoder, over the text's UTF-8 bytes, writes only kept characters, '+', '%' and hex digits |
| Form.DecodeEncodeByte | src/upload/form.rs:132-140 | decoding one encoded byte followed by anything gives that byte in front of the rest's decoding |
| Form.DecodeEncodeBytes | src/upload/form.rs:132-140 | decoding the encoding of any byte string gives it back |
| Form.FormDecodeEncode | src/upload/form.rs:132-140 | decoding the corrected encoding of any text gives the text back |
| Form.AsciiEncodingsAgree | src/upload/form.rs:132-140 | on ASCII text the encoder as written and the corrected one give the same output |
| Form.EncodeByteAscii | src/upload/form.rs:132-140 | on an ASCII character the byte encoder and the character encoder agree |
| Form.TextPairs | src/upload/form.rs:62-80 | at most one pair per name of the iteration order |
| Form.TextPairsMembers | src/upload/form.rs:62-80 | a pair is listed exactly when the order names it and the form holds that text under that name |
| Form.TextPairsAreTextFields | src/upload/form.rs:62-115 | under an iteration order the listed pairs are exactly the text fields |
| Form.Items | src/upload/form.rs:66-73 | one item per text pair, in order, each the name and the value encoded as written and joined by '=' |
| Form.ToUrlEncoded | src/upload/form.rs:62-80 | the rendering as written, with no contract of its own: `Form.UrlEncodedItems` states its shape, `Form.AsciiFormsAgree` that it equals the intended rendering on ASCII fields, `Form.NonAsciiAsWritten` what it does to "é" |
| Form.EncodedPairSplits | src/upload/form.rs:66-73 | two encoded texts joined by '=' hold no '&' and split at that '=' back into the two texts |
| Form.PairSplitsAsWritten | src/upload/form.rs:66-73 | an item as written holds no '&' and splits at its first '=' into the as-written encodings of the name and the value |
| Form.UrlEncodedItems | src/upload/form.rs:62-80 | "" without text fields; otherwise one '&'-separated item per text field, in iteration order, each splitting at its first '=' into the as-written encodings of the name and the value |
| Form.AsciiBytesAgree | src/upload/form.rs:132-140 | on ASCII text, encoding the characters and encoding their bytes give the same output |
| Form.AsciiFormsAgree | src/upload/form.rs:62-80 | when every text field's name and value is ASCII, the rendering as written equals the intended one |
| Form.NonAsciiAsWritten | src/upload/form.rs:62-80 | as written, the text field "é" (U+00E9) renders as "n=%E9": the low byte of the code point, not its UTF-8 bytes |
| Form.FormEncodeEAcute | src/upload/form.rs:132-140 | the intended encoding of "é" is "%C3%A9", its two UTF-8 bytes escaped |
| Form.ItemsIntended | src/upload/form.rs:66-73 | one item per text pair, in order, each encoded with the intended encoder |
| Form.ToUrlEncodedIntended | src/upload/form.rs:62-80 | the corrected rendering, with no contract of its own: `Form.UrlEncodedRoundTrip` states that it reads back to the text fields |
| Form.PairSplits | src/upload/form.rs:66-73 | with the intended encoder, an item holds no '&' and splits at its first '=' into the encoded name and value |
| Form.DecodeItemsCons | src/upload/form.rs:66-79 | decoding one intended item in front of decodable items gives its pair in front of theirs |
| Form.DecodeItemsPairs | src/upload/form.rs:66-79 | the intended items of any pairs decode back to those pairs |
| Form.UrlEncodedRoundTrip | src/upload/form.rs:62-80 | the intended rendering of a form without text fields is ""; otherwise splitting it at '&' and '=' and decoding recovers the text fields in iteration order |
| Form.AsciiUrlEncodedRoundTrip | src/upload/form.rs:62-80 | when every text field is ASCII, the rendering as written also reads back to the text fields in iteration order |
| Form.HasFiles | src/upload/form.rs:83-87 | no contract of its own: `Form.HasFilesIffFileFields` states that it holds exactly when the file fields are not empty, `Form.HasFilesAfterAdd` how adding fields changes it |
| Form.TextFields | src/upload/form.rs:90-101 | no contract of its own: `Form.Partition` states that it and the file fields split the form, each name keeping its value |
| Form.FileFields | src/upload/form.rs:104-115 | no contract of its own: `Form.Partition` states that it and the text fields split the form, each name keeping its path |
| Form.FormData.Count | src/upload/form.rs:57-59 | no contract of its own: `AddText`, `AddFile` and `Remove` state how each changes it, `Form.Partition` that it is the text plus the file fields |
| Multipart.LastComponent | src/upload/file.rs:85-86 | the position of the path's last component, after which every piece is empty or "."; none exactly when every piece is |
| Multipart.BaseName | src/upload/file.rs:85-88 | `Path::file_name` with the "file" fallback: the last component when it is not "..", otherwise "file", and "file" for a path without components; never empty, ".", ".." or holding '/' |
| Multipart.BaseNameTrailingSlash | src/upload/file.rs:85-88 | "photos/" names "photos": a trailing '/' is ignored |
| Multipart.BaseNameDot | src/upload/file.rs:85-88 | "." names no file, so "file" is used |
| Multipart.BaseNameParent | src/upload/file.rs:85-88 | "a/.." names no file, so "file" is used |
| Multipart.BaseNamePlain | src/upload/file.rs:85-88 | "dir/report.pdf" names "report.pdf" |
| Multipart.FileName | src/upload/file.rs:81-91 | the custom name when one is set, otherwise the path's file name as `BaseName` gives it |
| Multipart.GenerateBoundary | src/upload/multipart.rs:29-38 | "----BazzounquesterBoundary" followed by the decimal clock reading |
| Multipart.Body | src/upload/multipart.rs:61-106 | the body exists exactly when every upload's file can be read |
| Multipart.MultipartBuilder.constructor | src/upload/multipart.rs:20-26 | a generated boundary, no text fields and no uploads |
| Multipart.MultipartBuilder.AddText | src/upload/multipart.rs:41-43 | the text fields map the name to the value, the last write winning; boundary and uploads unchanged |
| Multipart.MultipartBuilder.AddFile | src/upload/multipart.rs:46-48 | the upload is appended after the earlier ones; boundary and text fields unchanged |
| Multipart.MultipartBuilder.WithText | src/upload/multipart.rs:128-131 | `add_text` on the same builder, which is handed back |
| Multipart.MultipartBuilder.WithFile | src/upload/multipart.rs:134-137 | `add_file` on the same builder, which is handed back |
| Multipart.MultipartBuilder.ContentType | src/upload/multipart.rs:56-58 | "multipart/form-data; boundary=" followed by exactly this builder's boundary |
| Multipart.MultipartBuilder.Build | src/upload/multipart.rs:61-106 | the body the specification `Body` gives: text parts, file parts, closing delimiter, or the first unreadable file's error |
| Multipart.WriteTextParts | src/upload/multipart.rs:65-78 | the bytes of the text parts, one per name in the iteration order |
| Multipart.WriteFilePart | src/upload/multipart.rs:81-100 | the bytes of one file part: its headers, the file's bytes and CRLF |
| Multipart.WriteFileParts | src/upload/multipart.rs:80-101 | the file parts in upload order, or the error of the first file that cannot be read |
| Multipart.AppendTextPart | src/upload/multipart.rs:67-77 | the bytes of a text part are the bytes of its pieces, written one after the other |
| Multipart.AppendFileHead | src/upload/multipart.rs:82-95 | the bytes of a file part's headers are the bytes of its pieces |
| Multipart.TextSectionStep | src/upload/multipart.rs:65-78 | one more name in the order appends that name's part |
| Multipart.PartsStep | src/upload/multipart.rs:80-101 | one more upload at the end is read and written last |
| Multipart.PartsErrorStops | src/upload/multipart.rs:80-101 | once the first k uploads fail, the whole list fails the same way |
| Multipart.FileErrorStops | src/upload/multipart.rs:80-101 | once the first k uploads fail, the whole file section fails with the same error |
| Multipart.PartsOk | src/upload/multipart.rs:80-101 | the parts exist exactly when every file can be read |
| Multipart.FileSectionOk | src/upload/multipart.rs:80-101 | the file section exists exactly when every file can be read |
| Multipart.PartsFirstError | src/upload/multipart.rs:80-101 | when some file cannot be read, the result is the first such file's error |
| Multipart.FileSectionFirstError | src/upload/multipart.rs:80-101 | when some file cannot be read, the file section is the first such file's error |
| Multipart.BodyShape | src/upload/multipart.rs:61-106 | the body is an error exactly when some file cannot be read; otherwise it opens with the text parts, has the file parts next and ends with "--B--\r\n" |
| Multipart.EmptyBody | src/upload/multipart.rs:61-106 | with no fields and no uploads the body is the closing delimiter alone |
| Multipart.TextSectionSingle | src/upload/multipart.rs:65-78 | a single field's section is its part alone |
| Multipart.SingleTextField | src/upload/multipart.rs:67-77 | one text field gives "--B\r\nContent-Disposition: form-data; name=\"N\"\r\n\r\nV\r\n" followed by the closing delimiter |
| Multipart.PartsSingle | src/upload/multipart.rs:80-101 | a single readable upload gives its part alone |
| Multipart.SingleFile | src/upload/multipart.rs:80-104 | one readable upload gives its headers, the file's bytes and CRLF, then the closing delimiter |
| Matchers.Numeric | src/assertions/matcher.rs:77-79 | a numeric matcher's expected text parses back, as a 64-bit integer, to the number it was built from |
| Matchers.HasLengthMatcher | src/assertions/matcher.rs:152-154 | the expected text of `has_length` parses back, as a `usize`, to the length it was built from |
| Matchers.ComplementaryPairs | src/assertions/matcher.rs:169-220 | not-equals, not-contains, is-not-empty and is-not-null each hold exactly when their positive partner fails, for every expected and actual text |
| Matchers.StartsWithSpec | src/assertions/matcher.rs:173 | starts-with holds exactly when the actual text is the expected text followed by something |
| Matchers.EndsWithSpec | src/assertions/matcher.rs:174 | ends-with holds exactly when the actual text is something followed by the expected text |
| Matchers.OccursBetween | src/assertions/matcher.rs:171 | a text is contained in anything that has it between two other texts |
| Matchers.SplitAtOccurrence | src/assertions/matcher.rs:171 | a text found at a position splits the text around it into the part before, the text itself and the part after |
| Matchers.ContainsIff | src/assertions/matcher.rs:171 | substring search finds `e` in `a` exactly when `a` is some text, `e`, then some text |
| Matchers.ContainsSpec | src/assertions/matcher.rs:171-172 | contains holds exactly when the actual text has the expected text somewhere inside it |
| Matchers.NumericComparisons | src/assertions/matcher.rs:182-208 | on the decimal text of a 64-bit number the four order matchers built from a number agree with `<`, `<=`, `>` and `>=` |
| Matchers.OrderingsOfParsed | src/assertions/matcher.rs:182-208 | when both texts parse as 64-bit integers, the order matchers compare the parsed numbers |
| Matchers.NumericEquals | src/assertions/matcher.rs:77-79 | `equals(n)` holds on the decimal text of `x` exactly when `x == n` |
| Matchers.NonNumericFailsAll | src/assertions/matcher.rs:182-208 | an actual text that is not a 64-bit integer fails all four order matchers, whatever is expected |
| Matchers.NumericNotComplement | src/assertions/matcher.rs:182-208 | `<` and `>=` are not complements: both fail on a non-numeric text |
| Matchers.HasLengthSpec | src/assertions/matcher.rs:212-218 | `has_length(n)` holds exactly when the UTF-8 byte length of the actual text is `n`; an expected text that is not a `usize` never matches |
| Matchers.IsNullSpec | src/assertions/matcher.rs:219 | is-null holds exactly on the empty text and on "null" |
| Matchers.DescriptionShowsExpected | src/assertions/matcher.rs:225-244 | the description of a matcher that carries a value shows the expected text; for the four value-free kinds it does not depend on it |
| Matchers.DescriptionEquals | src/assertions/matcher.rs:380 | `equals(200)` is described as "equals '200'" |
| Matchers.DescriptionLessThan | src/assertions/matcher.rs:385 | `less_than(100)` is described as "< 100" |
| Matchers.DescriptionFixed | src/assertions/matcher.rs:381-386 | `contains("test")` is described as "contains 'test'" and `is_empty()` as "is empty" |
| Matchers.Matches | src/assertions/matcher.rs:167-221 | no contract of its own: the `Matchers` lemmas above state each matcher type's meaning (`ContainsSpec`, `StartsWithSpec`, `EndsWithSpec`, `NumericComparisons`, `HasLengthSpec`, `IsNullSpec`, `ComplementaryPairs`) |
| Matchers.Description | src/assertions/matcher.rs:225-244 | no contract of its own: `Matchers.DescriptionShowsExpected` states that it shows the expected text |
| Assertions.New | src/assertions/assertion.rs:46-53 | a new assertion has the given kind and matcher, is enabled and has no description |
| Assertions.StatusCodeAssertion | src/assertions/assertion.rs:56-58 | a status-code assertion with the matcher, enabled, without description |
| Assertions.HeaderAssertion | src/assertions/assertion.rs:61-63 | a header assertion on the named header with the matcher, enabled, without description |
| Assertions.BodyAssertion | src/assertions/assertion.rs:66-68 | a body assertion with the matcher, enabled, without description |
| Assertions.ResponseTimeAssertion | src/assertions/assertion.rs:71-73 | a response-time assertion with the matcher, enabled, without description |
| Assertions.JsonPathAssertion | src/assertions/assertion.rs:76-78 | a JSON-path assertion on the path with the matcher, enabled, without description |
| Assertions.WithDescription | src/assertions/assertion.rs:81-84 | sets the description; kind, matcher and flag stay |
| Assertions.WithEnabled | src/assertions/assertion.rs:87-90 | sets the flag; kind, matcher and description stay |
| Assertions.Pass | src/assertions/assertion.rs:114-122 | a passed result carries the assertion, both values and no error message |
| Assertions.Fail | src/assertions/assertion.rs:125-133 | a failed result carries the assertion, both values and the error message |
| Assertions.Summary | src/assertions/assertion.rs:136-147 | a summary starts with a check mark exactly when the result passed; a pass reads "<label>: PASS", a failure "<label>: FAIL - Expected <expected>, got <actual>", the label being the description or "Assertion" |
| Validator.StatusText | src/assertions/validator.rs:133 | the status text reads back as the status code |
| Validator.HeaderValue | src/assertions/validator.rs:157-162 | the header's value looked up by lower-cased name, "" when the response lacks it |
| Validator.HeaderCaseInsensitive | src/assertions/validator.rs:157-162 | names equal up to ASCII case find the same value |
| Validator.MillisText | src/assertions/validator.rs:204 | the millisecond text reads back as the response time |
| Validator.Check | src/assertions/validator.rs:133-145 | the shared shape of a check: passed exactly when the matcher holds on the subject text; records the actual value and the matcher's description, and the error message on failure |
| Validator.ValidateStatusCode | src/assertions/validator.rs:128-146 | the actual value reads back as the status; passed exactly when the matcher holds on it; on failure "Status code does not match" |
| Validator.ValidateHeader | src/assertions/validator.rs:149-175 | the actual value is the header's value, "" when absent; passed exactly when the matcher holds on it; on failure the header's own message |
| Validator.ValidateBody | src/assertions/validator.rs:178-196 | the actual value is the body; passed exactly when the matcher holds on it; on failure "Body does not match" |
| Validator.ValidateResponseTime | src/assertions/validator.rs:199-217 | the actual value is the milliseconds followed by "ms"; the matcher is applied to the bare number |
| Validator.ValidateJsonPath | src/assertions/validator.rs:220-254 | a body that does not parse fails with the raw body and the parse error; otherwise the actual value is the extracted text, and the result passes exactly when the matcher holds on it |
| Validator.ValidateCustom | src/assertions/validator.rs:286-299 | a custom assertion always passes with actual value "custom" and its text as expected value |
| Validator.ValidateAssertion | src/assertions/validator.rs:112-125 | every result belongs to its assertion, is well formed, and expects the matcher's description (the custom text for a custom assertion) |
| Validator.PassedCount | src/assertions/validator.rs:39-48 | no more results passed than there are results |
| Validator.AllPassedIffCount | src/assertions/validator.rs:39-48 | the passed count equals the number of results exactly when every result passed |
| Validator.JoinLinesAppend | src/assertions/validator.rs:63-73 | joining two runs of lines is joining each in turn |
| Validator.LinesAppend | src/assertions/validator.rs:63-73 | the report lines of two runs of results are the lines of each in turn |
| Validator.ContainsAfter | src/assertions/validator.rs:63-73 | a text found in a report tail is still found after a head is put in front |
| Validator.ContainsFront | src/assertions/validator.rs:63-73 | a text is found in anything it starts |
| Validator.JoinLinesHoldEach | src/assertions/validator.rs:63-73 | every line, with its newline, occurs in the joined text |
| Validator.LinesHoldEach | src/assertions/validator.rs:63-73 | every result's summary, with its newline, occurs in the report lines |
| Validator.SummaryText | src/assertions/validator.rs:51-60 | "✓ All <total> assertions passed" on success, "✗ <failed> of <total> assertions failed" otherwise |
| Validator.ValidationReport.constructor | src/assertions/validator.rs:28-36 | no results, every counter zero, successful, and the counters valid |
| Validator.ValidationReport.AddResult | src/assertions/validator.rs:39-48 | appends the result, adds one to the total and to the passed or failed counter, clears success on a failure, and keeps total = passed + failed |
| Validator.ValidationReport.DetailedReport | src/assertions/validator.rs:63-73 | the summary, a blank line, then one summary line per result in order |
| Validator.ValidationReport.Summary | src/assertions/validator.rs:51-60 | no contract of its own: it is `Validator.SummaryText` of the report's flag and counters, whose contract states the two forms |
| Validator.Enabled | src/assertions/validator.rs:99-101 | an assertion is kept exactly when it is in the list and enabled, and there are as many entries as enabled assertions |
| Validator.EnabledCountAppend | src/assertions/validator.rs:99-101 | the enabled assertions of two lists one after the other number the sum of each list's |
| Validator.EnabledAppend | src/assertions/validator.rs:99-101 | filtering two lists one after the other gives the first list's enabled assertions, in order, followed by the second's |
| Validator.ValidateAll | src/assertions/validator.rs:92-109 | one result per enabled assertion |
| Validator.ValidateAllEnabled | src/assertions/validator.rs:92-109 | the i-th result is the i-th enabled assertion's own result |
| Validator.ValidateAllStep | src/assertions/validator.rs:98-106 | one more assertion adds its own result exactly when it is enabled |
| Validator.Validate | src/assertions/validator.rs:92-109 | the report holds one result per enabled assertion, in order, each its assertion's own result, with valid counters |
| Validator.ReportSuccess | src/assertions/validator.rs:39-48 | a valid report is successful exactly when every result in it passed |
| Substitution.IdentRun | src/env/substitution.rs:15 | the longest run of identifier characters at the front: all of them identifier characters, and the next one is not |
| Substitution.TokenAt | src/env/substitution.rs:15 | a match at the front of the text is at least as long as the shortest placeholder and no longer than the text |
| Substitution.TokenAtSpec | src/env/substitution.rs:15 | a match captures a valid name and spans exactly its `{{name}}`; a text that does not start with '{' has no match at the front |
| Substitution.FlattenPieces | src/env/substitution.rs:20-29 | scanning a text into literals and placeholders loses nothing: the pieces spell the text again |
| Substitution.SubstituteMultiple | src/env/substitution.rs:63-72 | one output per input, each the substitution of that input |
| Substitution.Missing | src/env/substitution.rs:75-90 | never more missing names than referenced ones |
| Substitution.MissingSpec | src/env/substitution.rs:75-90 | a name is reported missing exactly when it is referenced and is not a key |
| Substitution.MissingNames | src/env/substitution.rs:80-85 | the validation loop collects exactly the referenced names that are not keys, in order of appearance |
| Substitution.Validate | src/env/substitution.rs:75-90 | succeeds exactly when every referenced name is a key; otherwise the error lists the missing names in order, and the list is not empty |
| Substitution.PiecesPlain | src/env/substitution.rs:15 | text without '{' scans as literal characters whatever follows it |
| Substitution.PiecesToken | src/env/substitution.rs:15 | a placeholder for a valid name scans as one placeholder whatever follows it |
| Substitution.SubstituteTemplate | src/env/substitution.rs:20-29 | for literal text interleaved with placeholders, `find_variables` yields the names in order, duplicates kept, and `substitute` replaces each placeholder by its value, leaving an unknown one verbatim and never rescanning a value |
| Substitution.SubstituteWithDefaultTemplate | src/env/substitution.rs:32-47 | the same, with unknown names replaced by the default |
| Substitution.SubstituteNoVariables | src/env/substitution.rs:20-47 | a text with no placeholder comes back unchanged from both substitutions |
| Substitution.SubstituteUnknownKept | src/env/substitution.rs:20-29 | when no referenced name is a key, `substitute` returns the text unchanged |
| Substitution.SubstituteWithDefaultResolved | src/env/substitution.rs:32-47 | when every referenced name is a key, the default is never used and the result is `substitute`'s |
| Substitution.HasVariablesFind | src/env/substitution.rs:58-60 | `has_variables` holds exactly when `find_variables` finds something |
| Substitution.Substitute | src/env/substitution.rs:20-29 | no contract of its own: `Substitution.SubstituteTemplate`, `Substitution.SubstituteNoVariables` and `Substitution.SubstituteUnknownKept` state its result |
| Substitution.SubstituteWithDefault | src/env/substitution.rs:32-47 | no contract of its own: `Substitution.SubstituteWithDefaultTemplate` and `Substitution.SubstituteWithDefaultResolved` state its result |
| Substitution.FindVariables | src/env/substitution.rs:50-56 | no contract of its own: `Substitution.SubstituteTemplate` states that it yields the placeholder names in order, duplicates kept |
| Substitution.HasVariables | src/env/substitution.rs:58-60 | no contract of its own: `Substitution.HasVariablesFind` states that it holds exactly when `find_variables` finds something |
| Substitution.MissingEmpty | src/env/substitution.rs:75-90 | no name is missing exactly when every referenced name is a key |
| Substitution.DigitStartNotPlaceholder | src/env/substitution.rs:15 | "{{1x}}" holds no placeholder: a name does not start with a digit |
| Substitution.SpacesNotPlaceholder | src/env/substitution.rs:15 | "{{ A }}" holds no placeholder: spaces are not part of a name |
| Substitution.NoOpening | src/env/substitution.rs:15 | a text where no "{{" is followed by a letter or '_' holds no placeholder |
| ScriptTypes.New | src/scripts/types.rs:33-40 | a new script has the given kind and code, is enabled and unnamed |
| ScriptTypes.PreRequestScript | src/scripts/types.rs:43-45 | a pre-request script with the code, enabled and unnamed |
| ScriptTypes.PostResponseScript | src/scripts/types.rs:48-50 | a post-response script with the code, enabled and unnamed |
| ScriptTypes.WithName | src/scripts/types.rs:53-56 | sets the name; kind, code and flag stay |
| ScriptTypes.WithEnabled | src/scripts/types.rs:59-62 | sets the flag; kind, code and name stay |
| ScriptTypes.ShouldExecute | src/scripts/types.rs:65-67 | a script runs exactly when it is enabled and its code has a non-whitespace character |
| ScriptContexts.Plain | src/scripts/context.rs:18-23 | a variable holding the value, not secret |
| ScriptContexts.Secret | src/scripts/context.rs:26-31 | a variable holding the value, secret |
| ScriptContexts.Values | src/scripts/engine.rs:52-54 | the same names, each with its variable's value |
| ScriptContexts.ScriptContext.constructor | src/scripts/context.rs:52-59 | no variables, no request or response data, no console lines |
| ScriptContexts.ScriptContext.SetVariable | src/scripts/context.rs:62-64 | the name now holds a non-secret variable with the value; nothing else changes |
| ScriptContexts.ScriptContext.SetSecretVariable | src/scripts/context.rs:67-69 | the name now holds a secret variable with the value; nothing else changes |
| ScriptContexts.ScriptContext.GetVariable | src/scripts/context.rs:72-74 | the variable stored under the name, none when there is none |
| ScriptContexts.ScriptContext.GetVariableValue | src/scripts/context.rs:77-79 | the stored variable's value, secret or not, none when there is none |
| ScriptContexts.ScriptContext.RemoveVariable | src/scripts/context.rs:82-84 | returns what the name held and drops only that name |
| ScriptContexts.ScriptContext.SetRequestData | src/scripts/context.rs:92-94 | only the request map changes, at that key |
| ScriptContexts.ScriptContext.GetRequestData | src/scripts/context.rs:97-99 | the request value under the key, none when absent |
| ScriptContexts.ScriptContext.SetResponseData | src/scripts/context.rs:102-104 | only the response map changes, at that key |
| ScriptContexts.ScriptContext.GetResponseData | src/scripts/context.rs:107-109 | the response value under the key, none when absent |
| ScriptContexts.ScriptContext.ConsoleLog | src/scripts/context.rs:112-114 | one more console line at the end; nothing else changes |
| ScriptContexts.ScriptContext.ClearConsole | src/scripts/context.rs:122-124 | no console lines; nothing else changes |
| ScriptContexts.ScriptContext.RunHook | src/scripts/mod.rs:14-37 | the context takes the state the hook computes, or keeps its state and returns the error |
| ScriptContexts.WrittenBack | src/scripts/engine.rs:78-90 | after a script, the variables are exactly the scope's string variables other than "request" and "response", none of them secret |
| ScriptContexts.HookEffect | src/scripts/engine.rs:38-100 | a script of the other kind, a disabled one or a blank one changes nothing; a failure is an invalid-command error; a success never changes the request and response maps and only appends console lines |
| Durations.DebugMs | src/workflow/step.rs:179 | a whole number of milliseconds rendered as `Duration`'s debug text: "0ns" for zero, "<n>ms" below a second, "<n>s" for whole seconds, and a decimal point otherwise |
| Steps.New | src/workflow/step.rs:52-67 | a step with only the name, method and URL; errors stop the chain |
| Steps.WithHeader | src/workflow/step.rs:70-73 | one header line appended; the others stay in order; nothing else changes |
| Steps.WithQuery | src/workflow/step.rs:76-79 | one query item appended; the others stay in order; nothing else changes |
| Steps.WithBody | src/workflow/step.rs:82-85 | sets the body; nothing else changes |
| Steps.WithPreRequestScript | src/workflow/step.rs:88-91 | sets the pre-request script; nothing else changes |
| Steps.WithPostResponseScript | src/workflow/step.rs:94-97 | sets the post-response script; nothing else changes |
| Steps.WithAssertion | src/workflow/step.rs:100-103 | one assertion appended; the others stay in order; nothing else changes |
| Steps.WithContinueOnError | src/workflow/step.rs:106-109 | sets the flag; nothing else changes |
| Steps.WithTimeout | src/workflow/step.rs:112-115 | sets the timeout; nothing else changes |
| Steps.ExtractVariable | src/workflow/step.rs:118-121 | records the path under the name, replacing an earlier one; other names keep theirs |
| Steps.Success | src/workflow/step.rs:148-162 | a successful result with the response and the extracted variables |
| Steps.Failure | src/workflow/step.rs:165-174 | a failed result with the error, no response and no extracted variables |
| Steps.Summary | src/workflow/step.rs:177-188 | starts with a check mark exactly on success: "<name> - <duration>"; a failure reads "<name> - <error or 'Unknown error'> (<duration>)" |
| Chains.DefaultConfig | src/workflow/chain.rs:25-32 | stop on failure, one iteration, no delay, no time limit |
| Chains.WithStopOnFailure | src/workflow/chain.rs:35-38 | sets the flag; nothing else changes |
| Chains.WithDelay | src/workflow/chain.rs:41-44 | sets the delay; nothing else changes |
| Chains.WithMaxDuration | src/workflow/chain.rs:47-50 | sets the time limit; nothing else changes |
| Chains.WithIterations | src/workflow/chain.rs:53-56 | sets the iteration count, zero included; nothing else changes |
| Chains.New | src/workflow/chain.rs:83-90 | a chain with the name, no steps, no description, the default configuration |
| Chains.WithDescription | src/workflow/chain.rs:93-96 | sets the description; nothing else changes |
| Chains.AddStep | src/workflow/chain.rs:99-102 | one more step at the end, the earlier ones in order; `step_count` grows by one |
| Chains.StepCount | src/workflow/chain.rs:111-113 | no contract of its own: `Chains.AddStep` states that each added step adds one to it |
| Chains.WithConfig | src/workflow/chain.rs:105-108 | replaces the configuration; nothing else changes |
| Executor.BuildRequest | src/workflow/executor.rs:180-205 | the request a step sends: its method, its URL, each header line and query item in order, and its body, each with the pool's values substituted |
| Executor.Store | src/workflow/executor.rs:236 | the pool after storing the extracted values: every extracted name holds its value as a plain variable, every other name keeps its variable |
| Executor.RunOptionalHook | src/workflow/executor.rs:176-178 | an absent hook leaves the context as it is; a hook never changes the request and response maps |
| Executor.StepSpec | src/workflow/executor.rs:168-247 | a step's result is named after it, takes the clock's time, fails only with "Assertions failed: …" when it has assertions, and on success every extracted value is in the pool as a plain variable |
| Executor.Send | src/workflow/executor.rs:180-212 | building, sending and recording the response keep the promises of `StepSpec` |
| Executor.AfterResponse | src/workflow/executor.rs:214-229 | the post-response script and the checks keep the promises of `StepSpec` |
| Executor.Conclude | src/workflow/executor.rs:219-246 | a failure when there are assertions and not all pass; otherwise a success carrying the extracted values, which the pool then holds |
| Executor.Record | src/workflow/executor.rs:122-145 | the result recorded for a step is named after it and takes the clock's time; an error raised by the step becomes a failure carrying the error's text; the context is the one the step left |
| Executor.ExecutionResult.constructor | src/workflow/executor.rs:34-42 | no results, successful, no time spent, no final variables, and valid |
| Executor.ExecutionResult.AddStepResult | src/workflow/executor.rs:45-51 | appends the result, clears the flag on a failure and never sets it back, adds the result's time, and keeps the flag equal to "every result succeeded" and the time to their sum |
| Executor.ExecutionResult.Summary | src/workflow/executor.rs:54-71 | starts with a check mark exactly on success; success reads "Chain '<name>' completed successfully: <n> steps, <time>", failure "Chain '<name>' failed: <passed> passed, <failed> failed, <time>" |
| Executor.ExecutionResult.DetailedReport | src/workflow/executor.rs:74-83 | the summary, a blank line, then one numbered line per step result |
| Executor.ReportListsEachStep | src/workflow/executor.rs:78-80 | the i-th step result's summary appears in the detailed report on a line of its own numbered i + 1 |
| Executor.SuccessCount | src/workflow/executor.rs:55-56 | no more successful results than results |
| Executor.ExecuteStep | src/workflow/executor.rs:168-247 | the step method returns exactly the result and leaves exactly the context that `StepSpec` describes |
| Executor.BuildStepRequest | src/workflow/executor.rs:180-205 | the request-building loops produce `BuildRequest`'s request |
| Executor.SubstituteOneMore | src/workflow/executor.rs:190-199 | substituting one more header or query item appends its substitution |
| Executor.ConcludeStep | src/workflow/executor.rs:219-246 | the end of the step method returns and leaves exactly what `Conclude` describes |
| Executor.ExtractOneMore | src/workflow/executor.rs:233-238 | one more extracted name adds exactly that name's value to the extracted map |
| Executor.StoreOneMore | src/workflow/executor.rs:236 | storing one more extracted value is `set_variable` on the pool stored so far |
| Executor.StoreNothing | src/workflow/executor.rs:232-239 | with nothing extracted the pool is unchanged |
| Executor.ExtractVariables | src/workflow/executor.rs:231-239 | whatever order the map yields the names in, the extracted map and the pool come out as `Extracted` and `Store` say |
| Executor.Execute | src/workflow/executor.rs:105-165 | the result names the chain, records exactly the step results of `Run`, keeps its flag and time valid, and its final variables are the values in the context the run leaves |
| Executor.RunAll | src/workflow/executor.rs:110-155 | the iteration loop records exactly the results and leaves exactly the context that `Run` describes, stopping after the pass that reaches the time limit |
| Executor.RunIterationsPass | src/workflow/executor.rs:118-154 | one iteration is a pass over the steps followed by the time-limit check |
| Executor.RunIterationsNone | src/workflow/executor.rs:110 | with no iterations left nothing more is recorded |
| Executor.RunOnePass | src/workflow/executor.rs:119-147 | the step loop appends exactly the results of one pass, stopping after a failure the stop rule applies to, and keeps the result valid |
| Executor.CopyVariables | src/workflow/executor.rs:157-162 | the final variables are the pool's values by name; nothing else in the result changes |
| Executor.RunStepsShape | src/workflow/executor.rs:119-147 | a pass appends at most one result per step, in order, keeps the earlier results, and ends early only right after a result the stop rule applies to |
| Executor.StepFnNamesResults | src/workflow/executor.rs:135-139 | the executor names every recorded result after its step |
| Executor.RunStepsNames | src/workflow/executor.rs:119-147 | the results of a pass carry the names of the steps that produced them, in order |
| Executor.RunStepsComplete | src/workflow/executor.rs:127-144 | when the chain does not stop on failure, or every step continues on error, a pass records one result per step |
| Executor.RunIterationsCount | src/workflow/executor.rs:110-155 | without the stop rule and without a time limit, n passes record n results per step |
| Executor.RunCount | src/workflow/executor.rs:105-165 | a chain that does not stop on failure and has no time limit records iterations × steps results |
| Executor.RunStepsCompleteOk | src/workflow/executor.rs:127-144 | a pass that records no failure records one result per step |
| Executor.RunIterationsCountOk | src/workflow/executor.rs:110-155 | without a time limit, n passes that record no failure record n results per step, whatever the stop rule |
| Executor.RunCountNoFailures | src/workflow/executor.rs:105-165 | a chain without a time limit whose run records no failure has iterations × steps results, even when it stops on failure |
| Executor.Run | src/workflow/executor.rs:105-165 | no contract of its own: `Executor.RunAll` states that the loop computes it, and `Executor.RunCount`, `Executor.RunCountNoFailures` and `Executor.RunEmpty` how many results it holds |
| Executor.RunSteps | src/workflow/executor.rs:119-147 | no contract of its own: `Executor.RunOnePass` states that the step loop computes it, `Executor.RunStepsShape` its shape and where it stops |
| Executor.RunIterationsExtends | src/workflow/executor.rs:110-155 | later passes only append: earlier results stay, in order |
| Executor.RunIterationsNoSteps | src/workflow/executor.rs:119 | a chain without steps records nothing and leaves the context as it is |
| Executor.RunEmpty | src/workflow/executor.rs:105-165 | a chain with no steps or no iterations records nothing and leaves the empty context |
| Executor.AllSucceededEach | src/workflow/executor.rs:45-51 | the overall flag is the AND of the step flags |
| Executor.TotalMsAppend | src/workflow/executor.rs:49 | the total time of two runs of results is the sum of their times |
| Executor.ErrorRecorded | src/workflow/executor.rs:134-140 | an error raised by a step is recorded as a failure carrying the error's text |
| Executor.UrlPlaceholder | src/workflow/executor.rs:186 | a URL "before{{name}}after" is sent to "before<value>after" when the pool holds the name |
| Executor.ExtractedReachesNextUrl | src/workflow/executor.rs:231-239 | after a successful step that extracted a name, a following step without a pre-request script whose URL is "before{{name}}after" sends its request to "before<extracted value>after" |
| HistoryEntries.NewEntry | src/history/entry.rs:111-123 | a new entry holds the request only: no response, duration, collection, environment, tags or metadata |
| HistoryEntries.SetResponse | src/history/entry.rs:126-129 | records the response and the duration; nothing else changes |
| HistoryEntries.IsSuccessful | src/history/entry.rs:132-137 | successful exactly when there is a response and it is a success |
| HistoryEntries.HasError | src/history/entry.rs:140-142 | an error exactly when there is a response and it is an error |
| HistoryEntries.AddTag | src/history/entry.rs:145-149 | the tag is present afterwards; appended when new, otherwise the tags are unchanged; nothing else changes |
| HistoryEntries.AddTagIdempotent | src/history/entry.rs:145-149 | adding a tag twice is adding it once |
| HistoryEntries.AddTagKeepsDistinct | src/history/entry.rs:145-149 | tags that never repeat still never repeat after `add_tag` |
| HistoryEntries.SetMetadata | src/history/entry.rs:152-154 | the key holds the new value; other keys keep theirs; nothing else changes |
| HistoryEntries.Summary | src/history/entry.rs:157-165 | "<method> <url> - " followed by "<status> <reason>" when there is a response, "Pending" otherwise |
| HistoryEntries.NewRequestLog | src/history/entry.rs:170-180 | method and URL only: no original URL, headers, query items, body or size |
| HistoryEntries.CalculateBodySize | src/history/entry.rs:183-187 | with a body, its size becomes the body's UTF-8 length; without one nothing changes |
| HistoryEntries.NewResponseLog | src/history/entry.rs:192-207 | a success exactly for 2xx, an error exactly from 400 up; no headers, body, content type or message |
| HistoryEntries.SuccessIsNotError | src/history/entry.rs:192-207 | no fresh response log is both a success and an error |
| HistoryEntries.SetBody | src/history/entry.rs:210-213 | sets the body and its UTF-8 length; nothing else changes |
| HistoryEntries.SetError | src/history/entry.rs:216-219 | marks an error with the message; the status and everything else stay |
| HistoryLog.LogHeader | src/history/logger.rs:55-62 | a header line is read exactly when it holds ':' |
| HistoryLog.LogQuery | src/history/logger.rs:65-72 | a query item is read exactly when it holds '='; then it is the key, '=', the value, and the key has no '=' |
| HistoryLog.GatherKeys | src/history/logger.rs:55-72 | the keys are exactly those of the readable items |
| HistoryLog.GatherLastWins | src/history/logger.rs:55-72 | each key holds the value of the last readable item with that key |
| HistoryLog.GatherItems | src/history/logger.rs:55-72 | the insertion loops build exactly the gathered map |
| HistoryLog.RequestLogFor | src/history/logger.rs:49-78 | the method's name, the URL, the gathered headers and query items, the body, and a size exactly when there is a body |
| HistoryLog.Bounded | src/history/logger.rs:86-92 | after one more entry the list keeps at most the maximum, dropping the oldest |
| HistoryLog.ResponseLogFor | src/history/logger.rs:100-125 | the status with its reason phrase or "Unknown", the headers, the body only when non-empty, the content type when present, success exactly for 2xx |
| HistoryLog.ErrorLog | src/history/logger.rs:132-133 | status 0, "Error", an error carrying the message, not a success |
| HistoryLog.FirstIndex | src/history/logger.rs:99 | the position of the first entry with that id, none exactly when no entry has it |
| HistoryLog.Filter | src/history/logger.rs:154-190 | never more entries than given |
| HistoryLog.FilterSpec | src/history/logger.rs:154-190 | the filter holds exactly the entries that satisfy the condition |
| HistoryLog.FilterAppend | src/history/logger.rs:154-190 | filtering keeps the order |
| HistoryLog.HistoryLogger.constructor | src/history/logger.rs:18-25 | empty, at most 1000 entries, no current collection or environment |
| HistoryLog.HistoryLogger.WithMaxEntries | src/history/logger.rs:28-35 | empty, with the given maximum |
| HistoryLog.HistoryLogger.SetCollectionId | src/history/logger.rs:38-40 | sets the current collection; nothing else changes |
| HistoryLog.HistoryLogger.SetEnvironmentId | src/history/logger.rs:43-45 | sets the current environment; nothing else changes |
| HistoryLog.HistoryLogger.LogRequest | src/history/logger.rs:48-95 | a new entry for the request, tagged with the current collection and environment, is appended and the oldest dropped past the maximum; returns the entry's id and keeps the list within the maximum |
| HistoryLog.HistoryLogger.Find | src/history/logger.rs:99 | the position of the first entry with that id |
| HistoryLog.HistoryLogger.LogResponse | src/history/logger.rs:98-127 | the first entry with that id gets the response log and its duration; an unknown id changes nothing |
| HistoryLog.HistoryLogger.LogError | src/history/logger.rs:130-136 | the first entry with that id gets the error log and keeps its duration; an unknown id changes nothing |
| HistoryLog.HistoryLogger.GetEntry | src/history/logger.rs:144-146 | an entry with that id from the log; none exactly when no entry has it |
| HistoryLog.HistoryLogger.GetLastN | src/history/logger.rs:149-151 | the newest n entries, or all if fewer, newest first |
| HistoryLog.HistoryLogger.FilterByMethod | src/history/logger.rs:154-159 | exactly the entries whose method equals the given one, ASCII case ignored |
| HistoryLog.HistoryLogger.FilterByStatus | src/history/logger.rs:162-172 | exactly the entries with a response of that status |
| HistoryLog.HistoryLogger.GetSuccessful | src/history/logger.rs:175-177 | exactly the successful entries |
| HistoryLog.HistoryLogger.GetFailed | src/history/logger.rs:180-182 | exactly the entries with an error response |
| HistoryLog.HistoryLogger.SearchByUrl | src/history/logger.rs:185-190 | exactly the entries whose URL contains the pattern |
| HistoryLog.HistoryLogger.Clear | src/history/logger.rs:193-195 | no entries; the maximum and current ids stay |
| HistoryLog.HistoryLogger.Count | src/history/logger.rs:198-200 | never more than the maximum |
| HistoryLog.LoggedIsRetrievable | src/history/logger.rs:86-92 | with room for one entry, a logged request is the newest entry and can be found by its id; with a maximum of 0 the log stays empty |
| Environments.Entry | src/env/environment.rs:86-98 | the entry a setter stores: the value, its secrecy and description, enabled, no type |
| Environments.Enabled | src/env/environment.rs:171-177 | exactly the enabled entries, each by its value |
| Environments.Environment.constructor | src/env/environment.rs:66-77 | the id and name, no description, no variables, not active |
| Environments.Environment.WithDescription | src/env/environment.rs:80-83 | sets the description; nothing else changes |
| Environments.Environment.SetVariable | src/env/environment.rs:86-98 | the key holds an enabled, non-secret entry with the value, replacing any earlier one; nothing else changes |
| Environments.Environment.SetSecret | src/env/environment.rs:101-113 | the key holds an enabled, secret entry with the value, replacing any earlier one; nothing else changes |
| Environments.Environment.SetVariableFull | src/env/environment.rs:116-134 | the key holds an enabled entry with the given secrecy and description; nothing else changes |
| Environments.Environment.GetVariable | src/env/environment.rs:137-142 | the value exactly when the key is present and enabled |
| Environments.Environment.RemoveVariable | src/env/environment.rs:145-152 | true exactly when the key was present; only that key is gone |
| Environments.Environment.SetVariableEnabled | src/env/environment.rs:155-163 | false and no change for a missing key; otherwise only that entry's flag changes |
| Environments.Environment.EnabledVariables | src/env/environment.rs:171-177 | exactly the keys `get_variable` finds, with the values it finds |
| Environments.Environment.Activate | src/env/environment.rs:180-183 | active; nothing else changes |
| Environments.Environment.Deactivate | src/env/environment.rs:186-189 | not active; nothing else changes |
| Environments.EnvironmentManager.constructor | src/env/manager.rs:18-27 | no environments, none active |
| Environments.EnvironmentManager.AddEnvironment | src/env/manager.rs:45-48 | stored under its id, replacing one with the same id; the active id stays |
| Environments.EnvironmentManager.RemoveEnvironment | src/env/manager.rs:51-56 | true exactly when the id was stored; it is gone afterwards and no longer active |
| Environments.EnvironmentManager.GetEnvironment | src/env/manager.rs:59-61 | the environment stored under the id, none when there is none |
| Environments.EnvironmentManager.GetEnvironmentByName | src/env/manager.rs:69-71 | a stored environment with that name; none exactly when no stored environment has it |
| Environments.EnvironmentManager.SetActive | src/env/manager.rs:79-96 | false and no change for an unknown id; otherwise the previously active environment is deactivated, the target activated and recorded as active; variables and names never change |
| Environments.EnvironmentManager.GetActiveEnvironment | src/env/manager.rs:99-101 | the environment under the active id, none when there is none |
| Environments.EnvironmentManager.Substitute | src/env/manager.rs:109-116 | the text unchanged without an active environment, else substituted from its enabled variables only |
| Environments.EnvironmentManager.SubstituteWithEnv | src/env/manager.rs:119-126 | the text unchanged for an unknown id, else substituted from that environment's enabled variables |
| Environments.EnvironmentManager.Validate | src/env/manager.rs:129-142 | with an active environment, success exactly when every referenced name is an enabled variable, else the missing names; with none, success exactly when nothing is referenced, else every referenced name |
| Environments.CreateQuickEnv | src/env/manager.rs:202-207 | a new inactive environment whose only variables are BASE_URL and API_VERSION = "v1" |
| Cookies.NewCookie | src/session/cookies.rs:43-54 | the name and value, no domain, path, expiry or same-site, neither flag |
| Cookies.WithDomain | src/session/cookies.rs:57-60 | sets the domain; nothing else changes |
| Cookies.WithPath | src/session/cookies.rs:63-66 | sets the path; nothing else changes |
| Cookies.WithExpires | src/session/cookies.rs:69-72 | sets the expiry; nothing else changes |
| Cookies.IsExpired | src/session/cookies.rs:75-81 | expired exactly when there is an expiry strictly before now |
| Cookies.ToHeader | src/session/cookies.rs:130-132 | "name=value": splitting at the first '=' gives back the name and value when the name has no '=' |
| Cookies.Head | src/session/cookies.rs:85-91 | the part of the header before the first ';': a prefix of it with no ';' |
| Cookies.JoinHead | src/session/cookies.rs:85 | the first piece of a split starts the text it was split from |
| Cookies.AttrValue | src/session/cookies.rs:103-120 | an attribute has a value exactly when its segment holds '=' |
| Cookies.ReadAttr | src/session/cookies.rs:103-123 | Domain, Path and SameSite count only with a value, which is the one read; HttpOnly and Secure are recognised exactly by their lower-cased trimmed names |
| Cookies.ReadAll | src/session/cookies.rs:102-124 | one reading per attribute segment, in order |
| Cookies.LastValue | src/session/cookies.rs:102-124 | the value of the last valued attribute of that key; none exactly when there is none |
| Cookies.ApplyAttrsSnoc | src/session/cookies.rs:102-124 | one more segment at the end is applied last |
| Cookies.ApplyAttrsKey | src/session/cookies.rs:102-124 | each of domain, path and same-site ends with the value of its last occurrence, else keeps its value |
| Cookies.ApplyAttrsFlags | src/session/cookies.rs:113-118 | HttpOnly and Secure end up set exactly when set before or named by some segment; name, value and expiry never change |
| Cookies.ApplyAttrsEffect | src/session/cookies.rs:102-124 | the combined effect of the attribute segments: last value wins for the valued ones, any occurrence sets a flag, nothing else is touched |
| Cookies.ParseCookie | src/session/cookies.rs:84-127 | a cookie exactly when the head holds exactly one '='; then its trimmed name and value with the attributes applied |
| Cookies.SplitCount | src/session/cookies.rs:91 | splitting gives one piece more than there are separators |
| Cookies.TwoPieces | src/session/cookies.rs:91-99 | when a split gives two pieces, they are what splitting at the first separator gives |
| Cookies.FromHeader | src/session/cookies.rs:84-127 | the parsing method returns exactly `ParseCookie`'s cookie |
| Cookies.ApplyEach | src/session/cookies.rs:102-124 | the attribute loop applies every segment's reading in order |
| Cookies.PlainItem | src/session/cookies.rs:84-99 | a "name=value" item without ';' is its own head, with one '=' and no attribute segments |
| Cookies.RoundTrip | src/session/cookies.rs:84-132 | a cookie whose name and value have no '=', ';' or surrounding whitespace is read back from its header item as a plain cookie with the same name and value |
| Cookies.RoundTripNoEdges | src/session/cookies.rs:84-132 | the same round trip stated on a name and value that neither start nor end with whitespace |
| Cookies.RejectsBadHead | src/session/cookies.rs:91-94 | "a" and "a=b=c" are both rejected |
| Cookies.JoinContains | src/session/cookies.rs:194-198 | every piece of a join occurs in it |
| Cookies.HeaderItems | src/session/cookies.rs:194-197 | one "name=value" item per cookie, in order |
| Cookies.HeaderFor | src/session/cookies.rs:188-201 | nothing for no cookies, else the cookies' "name=value" items joined by "; ", which contains every cookie's item |
| Cookies.SetCookieOf | src/session/cookies.rs:206-207 | a cookie exactly when the header's name is Set-Cookie in any ASCII case and its value parses; then the parsed one |
| Cookies.SetFromSources | src/session/cookies.rs:204-212 | after reading the headers, a name is in the jar exactly when it was before or some header set it, and its cookie is the one the last such header set, else the old one |
| Cookies.SetFromKeyed | src/session/cookies.rs:204-212 | every cookie stays stored under its own name |
| Cookies.ReadSetCookie | src/session/cookies.rs:206-207 | the method reading one header returns exactly `SetCookieOf`'s cookie |
| Cookies.SetFromStep | src/session/cookies.rs:205-211 | one more header at the end is read last |
| Cookies.CookieJar.constructor | src/session/cookies.rs:143-147 | an empty jar |
| Cookies.CookieJar.Add | src/session/cookies.rs:150-152 | stored under its name, replacing a cookie of that name |
| Cookies.CookieJar.Get | src/session/cookies.rs:155-157 | the cookie stored under the name, which carries that name; none when there is none |
| Cookies.CookieJar.Remove | src/session/cookies.rs:160-162 | returns the cookie that was stored under the name; only that name goes |
| Cookies.CookieJar.RemoveExpired | src/session/cookies.rs:165-167 | keeps exactly the cookies not expired at now, unchanged |
| Cookies.CookieJar.ForDomain | src/session/cookies.rs:175-185 | every stored cookie whose domain the given one ends with (or that has none), each once, and no other |
| Cookies.DomainMatches | src/session/cookies.rs:178-183 | no contract of its own: `Cookies.CookieJar.ForDomain` and `Cookies.CookieJar.CookieHeader` state that exactly the cookies it accepts are returned |
| Cookies.CookieJar.CookieHeader | src/session/cookies.rs:188-201 | the header of the cookies `for_domain` returns (each stored, matching the domain, every matching one present, no name twice), joined by "; "; nothing exactly when no cookie matches |
| Cookies.CookieJar.AddFromHeaders | src/session/cookies.rs:204-212 | the jar after reading every Set-Cookie header in order |
| Cookies.CookieJar.Clear | src/session/cookies.rs:215-217 | an empty jar |
| Cookies.CookieJar.Count | src/session/cookies.rs:220-222 | the number of distinct names, zero exactly for an empty jar |
| Cookies.AddCount | src/session/cookies.rs:150-152 | adding a cookie counts one more exactly when its name was new |
| Sessions.WholeMinutes | src/session/manager.rs:194 | whole minutes of a signed number of seconds, rounded toward zero |
| Sessions.WholeMinutesOdd | src/session/manager.rs:194 | the minutes of a negated duration are the negated minutes |
| Sessions.WholeMinutesMonotone | src/session/manager.rs:194 | whole minutes never decrease as the duration grows |
| Sessions.Session.constructor | src/session/session.rs:39-50 | the id and name, an empty jar, no variables, created and last used now, not active |
| Sessions.Session.Touch | src/session/session.rs:53-55 | last used now; nothing else changes |
| Sessions.Session.SetVariable | src/session/session.rs:58-61 | the key holds the value; the session is touched |
| Sessions.Session.GetVariable | src/session/session.rs:64-66 | the value stored under the key, none when there is none |
| Sessions.Session.RemoveVariable | src/session/session.rs:69-73 | returns the previous value; the key is gone and the session touched |
| Sessions.Session.ClearVariables | src/session/session.rs:76-79 | no variables; touched |
| Sessions.Session.ClearCookies | src/session/session.rs:82-85 | an empty jar; variables stay; touched |
| Sessions.Session.ClearAll | src/session/session.rs:88-91 | no variables and no cookies; touched |
| Sessions.Session.Activate | src/session/session.rs:94-97 | active and touched |
| Sessions.Session.Deactivate | src/session/session.rs:100-102 | inactive; the last-used time stays |
| Sessions.Session.Age | src/session/session.rs:119-121 | creation time plus age is now |
| Sessions.Session.IdleTime | src/session/session.rs:124-126 | last use plus idle time is now; non-negative exactly when the last use is not in the future |
| SessionManagement.Keeps | src/session/manager.rs:193-195 | a session survives exactly when its whole idle minutes, rounded toward zero, are below the limit |
| SessionManagement.Survivors | src/session/manager.rs:192-195 | exactly the stored ids whose sessions pass the idle test |
| SessionManagement.LastUsed | src/session/manager.rs:193 | the same ids, each with its session's last-used time |
| SessionManagement.Kept | src/session/manager.rs:192-195 | the surviving sessions, each under its old id |
| SessionManagement.RemoveCount | src/session/manager.rs:50-55 | removing a key shrinks a map by one exactly when the key was there |
| SessionManagement.ActiveAfterCleanup | src/session/manager.rs:50-55 | the active id is kept when its session survives and always names a surviving session or nothing |
| SessionManagement.CleanupLeavesDanglingActive | src/session/manager.rs:190-196 | session 7, active and last used at 0 s, is removed by a one-minute clean-up at 120 s, while the active id still names it |
| SessionManagement.SessionManager.constructor | src/session/manager.rs:17-25 | no sessions, none active |
| SessionManagement.SessionManager.AddSession | src/session/manager.rs:43-47 | stored under its id, which is returned; the active id stays, still naming a stored session if it did |
| SessionManagement.SessionManager.RemoveSession | src/session/manager.rs:50-55 | true exactly when the id was stored; it is gone, no longer active, and the count drops by one exactly when it was there; an active id naming a stored session still does |
| SessionManagement.SessionManager.GetSession | src/session/manager.rs:58-60 | the session stored under the id, none when there is none |
| SessionManagement.SessionManager.GetSessionByName | src/session/manager.rs:68-70 | a stored session with that name; none exactly when no stored session has it |
| SessionManagement.SessionManager.SetActive | src/session/manager.rs:78-95 | false and no change for an unknown id; otherwise the previous active session, when still stored, is deactivated, the target activated and touched and recorded as active, which then names a stored session; a dangling active id is accepted |
| SessionManagement.SessionManager.GetActiveSession | src/session/manager.rs:98-100 | the session under the active id, none when there is none |
| SessionManagement.SessionManager.CreateSession | src/session/manager.rs:109-120 | a fresh empty session stored under the new id, made active when asked, the others untouched; the active id names a stored session when it is the new one or did before |
| SessionManagement.SessionManager.Count | src/session/manager.rs:185-187 | the number of stored sessions |
| SessionManagement.SessionManager.CleanupIdleAsWritten | src/session/manager.rs:190-196 | keeps exactly the surviving sessions, unchanged, and leaves the active id as it was; the manager stays usable, and when the active session was removed it finds no active session although it records an id |
| SessionManagement.SessionManager.CleanupIdle | src/session/manager.rs:190-196 | keeps exactly the surviving sessions, unchanged, and clears the active id when its session is removed, so the active id always names a stored session |
| RequestItems.NewItem | src/collections/request_item.rs:61-78 | the name, the method's text and the URL, with no headers, query items, body, tags or description |
| RequestItems.WithHeader | src/collections/request_item.rs:81-85 | the key now holds the value, the other keys and fields stay |
| RequestItems.WithQuery | src/collections/request_item.rs:88-92 | the key now holds the value, the other keys and fields stay |
| RequestItems.WithBody | src/collections/request_item.rs:95-100 | the body is set and the body type replaced, possibly by none; nothing else changes |
| RequestItems.WithDescription | src/collections/request_item.rs:112-116 | the description is set; nothing else changes |
| RequestItems.WithTag | src/collections/request_item.rs:103-109 | the tag is appended exactly when it was absent; the tags then hold it |
| RequestItems.WithTagKeepsDistinct | src/collections/request_item.rs:103-109 | tags without duplicates stay without duplicates |
| RequestItems.MethodOrGet | src/collections/request_item.rs:125 | the parsed method when the text parses, otherwise GET |
| RequestItems.MethodRoundTrip | src/collections/request_item.rs:61-78 | a new item is sent with the method it was created with |
| RequestItems.Lines | src/collections/request_item.rs:129-136 | one line per key of the order, in that order |
| RequestItems.LinesCover | src/collections/request_item.rs:129-136 | under an order listing every key once, there is one line per key and each key's "key<sep>value" line is among them |
| RequestItems.AppendLines | src/collections/request_item.rs:129-136 | the loop appends exactly the lines of the map in its iteration order |
| RequestItems.ToRequestBuilder | src/collections/request_item.rs:124-144 | the parsed method (GET when it does not parse), the URL, a "key:value" header line per header, a "key=value" query item per parameter, and the body when there is one |
| Folders.NewFolder | src/collections/folder.rs:38-49 | the id and name, with no description, requests or sub-folders |
| Folders.WithDescription | src/collections/folder.rs:52-55 | the description is set; nothing else changes |
| Folders.FirstWithId | src/collections/folder.rs:71-75 | a request with that id, none exactly when no request has it |
| Folders.RemoveFirstWithId | src/collections/folder.rs:105-110 | one request fewer exactly when some request has that id |
| Folders.RemoveFirstIsAtPosition | src/collections/folder.rs:105-110 | the removal deletes the first position holding the id and keeps the order of the rest |
| Folders.FirstPosition | src/collections/folder.rs:105 | the position holds the id and no earlier one does |
| Folders.FirstAppend | src/collections/folder.rs:70-84 | searching two lists one after the other finds the first list's match when it has one, else the second's |
| Folders.RemoveAppend | src/collections/folder.rs:104-121 | removing from two lists removes from the first when it holds a match, else from the second |
| Folders.ListAll | src/collections/folder.rs:133-145 | own requests, then each sub-folder's listing in order, as many as `total_requests` counts |
| Folders.TotalRequests | src/collections/folder.rs:124-130 | no contract of its own: `Folders.ListAll` states that it is the length of the listing, `Folders.AddRequest` that adding a request adds one |
| Folders.ListAllIn | src/collections/folder.rs:138-142 | the listings of the sub-folders one after the other |
| Folders.GetRequest | src/collections/folder.rs:70-84 | the first request with that id in the listing; none exactly when no request in the tree has it |
| Folders.GetIn | src/collections/folder.rs:76-81 | the first match among the sub-folders, searched in order |
| Folders.RemoveRequest | src/collections/folder.rs:104-121 | true exactly when the tree held the id; the new listing is the old one without its first match and the total drops by one; otherwise nothing changes |
| Folders.RemoveIn | src/collections/folder.rs:113-118 | removal from the first sub-folder that holds a match |
| Folders.ListAllInAppend | src/collections/folder.rs:64-67 | appending a sub-folder appends its listing |
| Folders.AddRequest | src/collections/folder.rs:58-61 | appended to the folder's own requests; one more in the tree |
| Folders.AddFolder | src/collections/folder.rs:64-67 | appended after the other sub-folders, so its requests come last in the listing |
| Collections.NewCollection | src/collections/collection.rs:52-67 | version "1.0.0", schema "bazzounquester-1.0", no description, requests, folders or variables |
| Collections.WithDescription | src/collections/collection.rs:70-73 | the description is set; nothing else changes |
| Collections.Root | src/collections/collection.rs:88-102 | the root level has the collection's requests and folders, so it lists and counts as the collection does |
| Collections.ListAll | src/collections/collection.rs:151-163 | root requests, then each folder's listing in order, as many as `total_requests` counts |
| Collections.TotalRequests | src/collections/collection.rs:142-148 | root requests plus the folders' totals: the length of the listing |
| Collections.GetRequest | src/collections/collection.rs:88-102 | the first request with that id, root requests first; none exactly when no request has it |
| Collections.RemoveRequest | src/collections/collection.rs:122-139 | true exactly when some request had the id; then the listing loses its first match and the total drops by one, else the collection is unchanged |
| Collections.AddRequest | src/collections/collection.rs:76-79 | appended to the root requests; one more in the collection |
| Collections.AddFolder | src/collections/collection.rs:82-85 | appended after the other folders, so its requests come last in the listing |
| Collections.RemoveUniqueGone | src/collections/collection.rs:122-139 | a request whose id no other request shares is no longer found after its removal |
| Workspaces.Position | src/collections/workspace.rs:68 | the position holds the id and no earlier one does; none exactly when the id is not listed |
| Workspaces.DeleteKeepsDistinct | src/collections/workspace.rs:67-79 | deleting a position from a list without duplicates leaves one without duplicates that lacks that element |
| Workspaces.Workspace.constructor | src/collections/workspace.rs:39-50 | the id and name, no description, collections or variables |
| Workspaces.Workspace.WithDescription | src/collections/workspace.rs:53-56 | the description is set; nothing else changes |
| Workspaces.Workspace.AddCollection | src/collections/workspace.rs:59-64 | appended unless already listed, so the ids stay distinct |
| Workspaces.Workspace.RemoveCollection | src/collections/workspace.rs:67-79 | true exactly when the id was listed; it is then no longer listed and the order of the rest is kept |
| Workspaces.Workspace.SetVariable | src/collections/workspace.rs:82-85 | the key now holds the value; other variables stay |
| Workspaces.Workspace.GetVariable | src/collections/workspace.rs:88-90 | the value stored under the key, none when there is none |
| Workspaces.PositionIsFirst | src/collections/workspace.rs:68-70 | the first position the search loop finds is the one `Position` names |

## Left out

- The HTTP transport (`reqwest`) is not modelled. `Executor.Oracles` supplies one response or error per step execution, and the elapsed time per execution.
- The Rhai script engine is not modelled. A hook is a parameter that returns new variables and log lines, or an error. The engine's write-back of those results is modelled.
- `serde_json` parsing is the `Json.Parser` parameter. JSON numbers are integers only, so floating point is not modelled.
- The regular-expression engine is the `Matchers.RegexOracle` parameter. The `{{NAME}}` pattern of the substitutor is written out as a scanner.
- Clocks: timestamps are whole seconds and durations whole milliseconds, passed in as parameters. `updated_at` and the other touch-only timestamps of folders, collections, items and workspaces are not modelled.
- UUIDs are not generated. Ids are given as parameters.
- Hash-map iteration order is an explicit parameter that lists each key once. The program gives no order, so the model proves nothing about a particular one.
- Filesystem storage is not modelled. This covers collection `save_to_file` and `load_from_file`, `storage.rs`, `WorkspaceStorage`, environment and session persistence, and the history file.
- The step delay and the sleep between iterations are not modelled, because they only wait.
- Folders, collections, history entries and request items are values. A `&mut self` method on them returns the updated value, so aliasing through a `&mut` borrow is not modelled.
- `get_request_mut` in folder.rs and collection.rs is not modelled, because it only lends a mutable reference. `get_request` covers the same search.
- The line editor, `clap`, `shlex` and the interactive `parse_line` shell loop are not modelled. `CommandParser.Parse` takes the already-split words.
- Header validation by the HTTP library is not modelled. A header is a name and a value, and repeated header names keep the last value.
- The reason phrase of a status code is not modelled, nor are `Response::from_reqwest`, `format`, `format_status`, `get_form_data` and `get_raw_body`.
- Case folding covers ASCII plus the few non-ASCII characters whose upper case is ASCII. Full Unicode case mapping is not modelled.
- `MultipartBuilder::from_form_data` reads files from disk. src/upload/file.rs is not part of this model, so file contents and MIME types are inputs of the builder.
- The `list_*` helpers that only copy a container into a vector (`CookieJar::all`, `list_sessions`, `list_environments`) are not modelled; the maps they copy are.
- `to_request_builder` in src/collections/request_item.rs:125 calls `HttpMethod::parse`, which src/http/request.rs does not define. The model reads that call as `HttpMethod::from_str` (`Request.FromStr`), with GET when it fails.
- The session storage path and the session manager's persistence are not modelled.

## Findings

| source | as written | input that shows it | evidently intended | confidence | as-written member | corrected member |
|---|---|---|---|---|---|---|
| src/upload/form.rs:132-140 | a character outside the kept set is written as `%` and the low byte of its code point (`c as u8`) | "Ā" (U+0100) and "\u0000" both encode as "%00" | percent-encode every byte of the character's UTF-8 form, so that decoding gives the text back | high, not executed | Form.UrlEncodeCollides | Form.FormDecodeEncode |
| src/upload/form.rs:62-80 | `to_urlencoded` writes each name and value with the encoder above | a text field "é" (U+00E9) renders as "n=%E9" instead of "n=%C3%A9", the escape of its UTF-8 bytes that a form decoder reads back as "é" | render with the UTF-8 encoder, so that the reader recovers every text field | high, not executed | Form.NonAsciiAsWritten | Form.UrlEncodedRoundTrip |
| src/session/manager.rs:190-196 | `cleanup_idle` removes idle sessions and leaves `active_session_id` unchanged | session 7, active, last used at 0 s, cleaned up with a one-minute limit at 120 s: it is removed but the active id still names it | clear the active id when its session is removed, as `remove_session` does | medium, not executed | SessionManagement.CleanupLeavesDanglingActive | SessionManagement.SessionManager.CleanupIdle |
