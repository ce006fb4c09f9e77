# Request handler and test configuration, modelled in Dafny

This project models two parts of a Playwright test harness for the Conduit REST API:

- **`RequestHandler`** (`RequestHandling`, `request_handler.dfy`) is the fluent request builder that every API test receives. It holds a default base URL and pending state: an optional base-URL override, a path, query parameters, headers and a body. Each setter overwrites one field and returns the same handler. `GetUrl` builds the request URL: the base (the override when one was set, else the default), then the path, then `?` and the parameters in form-urlencoded form, but only when there are parameters. `GetRequest(status)` sends one GET with that URL and the pending headers, and never the body. It then checks that the reply's status equals the expected one, and only after that decodes the JSON body.
- **The configuration** (`ApiTestConfig`, `config.dfy`) chooses the environment name. It uses `TEST_ENV` when that is set and not empty, and `"dev"` otherwise. It then builds the `{apiUrl, userEmail, userPassword}` record. The defaults are overridden when the name is exactly `"qa"` or exactly `"prod"`.

Supporting modules:

- `FormUrlencoded` (`form_urlencoded.dfy`) models the application/x-www-form-urlencoded serializer of section 5.2 of the WHATWG URL Standard. `URLSearchParams.append` followed by `URL.toString` produces this serializer's output. It includes:
  - the nested percent-encode sets of section 1.3;
  - UTF-8 encoding of characters;
  - the matching parser of section 5.1, which serves as the serializer's inverse.
- `JsValues` (`js_values.dfy`) models the JSON values that parameters and bodies carry, and JavaScript's `String(v)`. `append` applies `String(v)` to each parameter value.
- `Wrappers` (`wrappers.dfy`) provides `Option` and `Result`.

The Playwright request context is modelled by the class `Transport`. It logs every call it receives and answers the calls in order with scripted replies. A call that finds no reply left fails, which stands for a network error. No real HTTP request is modelled.

The handler's state is the field set of the class `RequestHandler`. `State()` reads that field set into one `Pending` value. Each method's contract states its new state as an update of `old(State())`. The specification functions `BuildUrl` and `GetOutcome` say what a request is and what its result is. The lemmas about them (the URL round trip and the example URLs) carry the source's promises.

## Model

| member | source | states |
|---|---|---|
| RequestHandling.RequestHandler.constructor | utils/request-handler.ts:13-16 | A fresh handler keeps the given transport and default base URL. It has no override, an empty path, no parameters, no headers and an empty object body. |
| RequestHandling.RequestHandler.Url | utils/request-handler.ts:18-21 | Sets the override to the given string, which may be empty. Changes no other field and returns the same handler. |
| RequestHandling.RequestHandler.Path | utils/request-handler.ts:23-26 | Replaces only the path and returns the same handler. |
| RequestHandling.RequestHandler.Params | utils/request-handler.ts:28-31 | Replaces only the parameter entries, keeping their order, and returns the same handler. |
| RequestHandling.RequestHandler.Headers | utils/request-handler.ts:33-36 | Replaces only the header map and returns the same handler. |
| RequestHandling.RequestHandler.Body | utils/request-handler.ts:38-41 | Replaces only the body and returns the same handler. |
| RequestHandling.RequestHandler.GetUrl | utils/request-handler.ts:63-71 | Its loop appends each entry's serialized pair after an `&`, except before the first. The resulting URL equals `BuildUrl(State())`: the base, then the path, then `?` and the serialized parameters when there are any. |
| RequestHandling.ResolvedBase | utils/request-handler.ts:64 | `??` in the URL: the override whenever one was set, otherwise the default base. |
| RequestHandling.EmptyOverrideWins | utils/request-handler.ts:64 | An empty override still replaces the default base, because `??` falls back only when no value was set. |
| RequestHandling.SearchTuples | utils/request-handler.ts:67-68 | One (key, text) tuple per parameter entry, in entry order. The text is `String(value)`. |
| RequestHandling.UrlRecoversParams | utils/request-handler.ts:63-71 | With no parameters, the URL is exactly base plus path. Otherwise, when base plus path has no `?`, the URL splits at its first `?`: before it is base plus path, and parsing the rest gives the UTF-8 bytes of each key and value text, in entry order. |
| RequestHandling.Transport.Get | utils/request-handler.ts:49-51 | Logs exactly one GET call with the given URL, headers and data. Answers with the next scripted reply, or with none when the script is exhausted, and consumes that reply. |
| RequestHandling.NextReply | utils/request-handler.ts:49-51 | No reply exactly when the script is empty; otherwise the first scripted reply. |
| RequestHandling.GetOutcome | utils/request-handler.ts:54-56 | Success exactly when a reply arrived with the expected status and a decodable body, and then the value is that body. No reply is a transport failure. A wrong status is a mismatch that carries both codes, whatever the body is. The body is decoded only after the status matched. |
| RequestHandling.RequestHandler.GetRequest | utils/request-handler.ts:47-57 | Leaves the pending state unchanged. Sends exactly one GET with `BuildUrl(State())` and the pending headers, and with no body. Consumes one reply, and its result is `GetOutcome` of the expected status and that reply. |
| RequestHandling.BuildUrl | utils/request-handler.ts:63-71 | The definition of the URL a request goes to: the resolved base, the path, and `Query` of the parameters. It has no contract of its own; `UrlRecoversParams`, `ListingUrl` and `EmptyOverrideWins` state its properties and `GetUrl` is proved to compute it. |
| RequestHandling.Query | utils/request-handler.ts:66-70 | Empty exactly when there are no parameters; otherwise `?` followed by the serialized search list, which is never empty. |
| RequestHandling.ArticlesQuery | tests/api-tests/smokeTest.spec.ts:28-31 | The parameters `{limit: 2, offset: 0}` give the query `?limit=2&offset=0`. |
| RequestHandling.ArticlesSearchList | tests/api-tests/smokeTest.spec.ts:30 | `append` turns the numbers 2 and 0 into the texts "2" and "0". |
| RequestHandling.ListingUrl | tests/example.spec.ts:25 | With the Conduit base and no override, any path with limit 2 and offset 0 gives the base, the path and `?limit=2&offset=0`. For `/articles` this is the URL the raw request test uses. |
| RequestHandling.ArticlesListing | tests/smokeTest.spec.ts:3-7 | A fresh handler given path `/articles` and those parameters builds `https://conduit-api.bondaracademy.com/api/articles?limit=2&offset=0`. |
| RequestHandling.ReusedHandler | tests/api-tests/smokeTest.spec.ts:60-80 | The state stays on one handler across requests. After one GET, changing only the path still sends the earlier headers and parameters, and neither GET carries the body that was set. |
| FormUrlencoded.CharUtf8 | utils/request-handler.ts:68 | One to four UTF-8 bytes per character. An ASCII character is its own byte; any other character gives only bytes of 0x80 and above. |
| FormUrlencoded.FormSetComplement | utils/request-handler.ts:68 | Outside the application/x-www-form-urlencoded percent-encode set are exactly the ASCII alphanumerics and `*-._`. |
| FormUrlencoded.EncodeChar | utils/request-handler.ts:68 | Percent-encode-after-encoding of one character, never empty: space is `+`, a literal character is itself, and any other character is the `%XX` escapes of its UTF-8 bytes. `EncodeCharAlphabet` and `DecodeEncodeChar` state its properties. |
| FormUrlencoded.EncodeCharAlphabet | utils/request-handler.ts:68 | The encoding of one character holds only literal characters, `+` and `%`. |
| FormUrlencoded.DecodeEncodeChar | utils/request-handler.ts:68 | Decoding the encoding of one character gives back its UTF-8 bytes, whatever follows it. |
| FormUrlencoded.EncodeComponent | utils/request-handler.ts:68 | The definition of an encoded name or value: each character's encoding, in order. `EncodeComponentAlphabet`, `EncodeLiteral` and `DecodeEncode` state its properties. |
| FormUrlencoded.SerializePair | utils/request-handler.ts:68 | The definition of one tuple in the output, encoded name, `=`, encoded value. `LiteralPair` and `ParseSerialize` state its properties; `PairHasNoAmpersand` shows that it never holds `&`. |
| FormUrlencoded.PairHasNoAmpersand | utils/request-handler.ts:68 | An encoded tuple is never empty and never holds `&`, so the output splits back into its tuples. |
| FormUrlencoded.JoinPieces | utils/request-handler.ts:67-70 | The serializer's output loop over pieces: empty for no pieces and non-empty once the last piece is. `JoinCons` reads it from the front. |
| FormUrlencoded.EncodeComponentAlphabet | utils/request-handler.ts:68 | An encoded name or value holds only literal characters, `+` and `%`. |
| FormUrlencoded.EncodeLiteral | utils/request-handler.ts:68 | Text made only of literal characters is written unchanged. |
| FormUrlencoded.LiteralPair | utils/request-handler.ts:68 | A tuple of literal texts is written `name=value`. |
| FormUrlencoded.Serialize | utils/request-handler.ts:67-70 | The serialization is empty exactly when there are no tuples. |
| FormUrlencoded.SerializeCons | utils/request-handler.ts:67-70 | Read from the front: the first tuple's pair, and then `&` and the serialization of the rest when there is a rest. |
| FormUrlencoded.JoinCons | utils/request-handler.ts:67-70 | The output loop, which appends `&` only when the output is not empty, joins non-empty pieces with `&` from the front. |
| FormUrlencoded.SerializeLiteral | utils/request-handler.ts:67-70 | When no name or value needs escaping, the output is plainly `n1=v1&n2=v2&…`. |
| FormUrlencoded.SerializeTwoLiteral | utils/request-handler.ts:67-70 | Two literal tuples are written `n1=v1&n2=v2`. |
| FormUrlencoded.SerializeAlphabet | utils/request-handler.ts:67-70 | The serialization holds only literal characters, `+`, `%`, `&` and `=`. |
| FormUrlencoded.DecodePercentBytes | utils/request-handler.ts:68 | Percent-decoding the `%XX` escapes of some bytes gives back exactly those bytes. |
| FormUrlencoded.DecodeEncode | utils/request-handler.ts:68 | Decoding an encoded name or value gives its UTF-8 bytes. `+` reads back as a space. |
| FormUrlencoded.ParseSerialize | utils/request-handler.ts:67-70 | Parsing the serialization gives back every tuple, in order, as the UTF-8 bytes of its name and value. |
| JsValues.ToText | utils/request-handler.ts:68 | `String(value)` as `append` applies it to a parameter value. `NumberTextRoundTrip` states what a number becomes. |
| JsValues.IntToDecimal | utils/request-handler.ts:68 | The decimal numeral of an integer: the digits of its magnitude, with a leading `-` exactly when it is negative. |
| JsValues.NatToDecimal | utils/request-handler.ts:68 | A non-empty string of decimal digits, with no leading zero except for 0 itself. |
| JsValues.DecimalRoundTrip | utils/request-handler.ts:68 | The decimal text of a natural number reads back as that number. |
| JsValues.NumberTextRoundTrip | utils/request-handler.ts:68 | `String(n)` of an integer is its digits, with a leading `-` when it is negative, and reads back as `n`. |
| Wrappers.Option.GetOr | utils/request-handler.ts:64 | The held value when there is one, else the fallback. |
| ApiTestConfig.SelectEnv | api-test.config.ts:1-2 | Never empty. A set, non-empty `TEST_ENV` is taken as it is; an unset or empty one gives `"dev"`. |
| ApiTestConfig.BuildConfig | api-test.config.ts:5-19 | The API URL is always the Conduit URL. `"qa"` gives `franktestapi@test.com` / `Test1234`. `"prod"` gives an empty e-mail and an empty password, and raises no error. Every other name, including `"QA"` and `"dev"`, keeps `franktest@test.com` / `Test1234`. |
| ApiTestConfig.LoadConfig | api-test.config.ts:1-19 | The environment is the selected one, and the record is given for every environment: `"qa"` and `"prod"` give their overrides, and every other name, including the `"dev"` an unset or empty `TEST_ENV` selects and the case-different `"QA"`, gets the defaults. |

## Left out

- The transport and JSON decoding are not modelled. Playwright's `APIRequestContext`, the network and `response.json()` are a scripted `Transport`: the decoded body is `Option<Json>`, where `None` means the body could not be decoded. No real HTTP semantics are modelled.
- `async`/`await` is not modelled. Each request runs to completion before the next statement.
- `expect(...).toEqual(status)` throws in the source. The model returns it as `StatusMismatch(expected, actual)` instead of an exception.
- `new URL(...)` is not modelled. `BuildUrl` concatenates base and path, so the model does not capture URL parsing, rejection of an invalid URL, or normalisation (for example, making the host lower case or adding a `/` path). `UrlRecoversParams` assumes base plus path holds no `?`; when it does, `URL` would add the parameters to the existing query.
- `Object.entries` ordering is not modelled. Parameters are a sequence of entries in the order `Object.entries` yields them. The reordering that object semantics applies to integer-like keys, and the impossibility of duplicate keys, are not modelled.
- JsValues.ToText: covers only the integer numbers `Json` holds. Floating-point and exponent formatting of `String(n)`, and `undefined` and symbol values, are not modelled.
- FormUrlencoded.Parse: stops at bytes. It does not UTF-8-decode them (with replacement of invalid sequences) back into strings.
- Not part of this model, because they sit outside `getRequest`/`getUrl` or their code is not part of this model:
  - `postRequest`, `putRequest` and `deleteRequest`, used by the tests;
  - the `APILogger`;
  - the custom matchers and schema validator;
  - `createToken`;
  - the fixtures.
- `utils/fixtures.ts:15` passes a third argument (the logger) to the two-parameter constructor. JavaScript ignores the extra argument, so it is left out.
- `console.log` of the environment name is left out, because it is output only. Reading `process.env.TEST_ENV` is the parameter `testEnv` of `SelectEnv` and `LoadConfig`.
- `"prod"` sets both credentials to empty strings and raises no error; `BuildConfig` follows the code.
- The setters `Params`, `Headers` and `Body` store values. The source keeps the caller's object by reference (utils/request-handler.ts:29,34,39), so a change the caller makes to that object after the setter also changes later requests. The model does not capture that aliasing.
- `BuildUrl` appends the query after base plus path. When base plus path holds a `#`, `new URL` keeps the fragment at the end, so the source's URL reads `…?query#fragment` while `BuildUrl` gives `…#fragment?query`. The model does not capture fragments.
