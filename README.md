# CS2 price endpoint, modelled in Dafny

The application tracks the Steam market prices of Counter-Strike 2 items.
Prices come from its serverless endpoint `/api/price`. The endpoint takes an item
name and, optionally, a currency and an application id. It asks Steam's
`priceoverview` service for the item and answers with the lowest and median
price as numbers. Steam formats prices for display (`"0,73 €"`, `"$1.50"`,
`"1.234,56"`), so the endpoint normalises them with a small `toNum` function.
It also chooses a CDN cache policy that depends on whether the lookup worked.

This project models both parts:

- `wrappers.dfy`: module `Wrappers`, the `Option` type.
- `js_string.dfy`: module `JsString`, the JavaScript string operations
  `toNum` uses: `includes`, `lastIndexOf`, `replace(/\./g, "")` and
  `replace(",", ".")`. `IndexOf` locates the first comma, which is the one
  `replace(",", ".")` rewrites; `toNum` itself never calls `indexOf`.
- `js_number.dfy`: module `JsNumber`, JavaScript's `Number(s)` over the only
  strings that can reach it. These are strings of digits, `,`, `.` and `-`.
  - A decimal literal is a `Literal` value.
  - `Spell` writes a literal out and `Lex` reads it back. The two are proved
    to be inverse.
  - `Value` gives the exact value of a literal as a `real`.
- `to_num.dfy`: module `PriceNumber`, the `toNum` normaliser:
  - the strip step (`Clean`);
  - the European-format rewrite (`EuroRewrite`);
  - the parse and the 0.25 filter (`ToNum`).

  It also holds the general lemmas for plain, European and US-grouped
  prices, and some concrete prices. Only `"0,73 €"` comes from the source's
  own comment (api/price.js:40); the others are illustrative inputs.
- `handler.dfy`: module `PriceHandler`, the handler as a pure classifier.
  - Inputs: the query, the outcome of the upstream call (thrown, or a status
    and a body) and the clock reading.
  - Output: the upstream request, if one is made, and the response, given
    by its HTTP code, its `ok` flag, its `Cache-Control` policy and its
    payload.

Numbers are exact reals. Strings are sequences of characters.

## Model

| member | source | states |
|---|---|---|
| JsString.IndexOf | api/price.js:45 | The position `replace(",", ".")` rewrites: -1 exactly when there is no comma; otherwise a comma with no comma before it. |
| JsString.Includes | api/price.js:44 | `includes(",")` holds exactly when `indexOf` and `lastIndexOf` find the character. |
| JsString.LastIndexOf | api/price.js:44 | `lastIndexOf`: -1 exactly when the character is absent; otherwise an occurrence with none after it. |
| JsString.LastIndexOfOrder | api/price.js:44 | A `d` at position k with no `c` at or after k puts the last `c` strictly before k, and the last `d` at or after k. |
| JsString.RemoveAll | api/price.js:45 | `replace(/\./g, "")` leaves no dot, never lengthens the string, and changes nothing when there is no dot. |
| JsString.RemoveAllCounts | api/price.js:45 | Removing every dot sets the dot count to zero and keeps every other character's count. |
| JsString.RemoveAllConcat | api/price.js:45 | Removing dots works piece by piece over a concatenation, so the remaining characters keep their order. |
| JsString.ReplaceFirst | api/price.js:45 | `replace(",", ".")` with a string pattern keeps the length. Only the position of the first comma changes, and every other position keeps its character. |
| JsString.ReplaceFirstCounts | api/price.js:45 | Replacing the first comma takes exactly one comma away and adds one point; no other count changes. |
| JsNumber.NumericCharListed | api/price.js:43 | The characters `[^\d,.\-]` does not match are exactly the ten ASCII digits, `,`, `.` and `-`. |
| JsNumber.Spell | api/price.js:47 | The text of a valid literal is non-empty numeric text without a comma. |
| JsNumber.SplitAtDot | api/price.js:47 | Splitting at the first dot gives a part with no dot, and joining the parts gives the text back. |
| JsNumber.SplitAtDotUnsigned | api/price.js:47 | Splitting the text of a dot-free whole part and an optional fraction gives back exactly that part and that fraction. |
| JsNumber.UnsignedText | api/price.js:47 | Digits around an optional point form numeric text with no comma and no minus sign. |
| JsNumber.Unsigned | api/price.js:47 | Unsigned text starts with the first digit of its whole part, or with the point when the whole part is empty. |
| JsNumber.DigitValue | api/price.js:47 | A digit is worth less than ten. |
| JsNumber.WholeValue | api/price.js:47 | Reading further digits never lowers the value read so far. |
| JsNumber.FractionValue | api/price.js:47 | Digits after the decimal point are worth at least 0 and less than 1. |
| JsNumber.Value | api/price.js:47 | A negative literal has a value of at most 0; any other literal has a value of at least 0. |
| JsNumber.Pow10 | api/price.js:47 | A power of ten is at least 1. |
| JsNumber.Shifted | api/price.js:47 | Moving the decimal point to the right never lowers a non-negative number. |
| JsNumber.ShiftedAdd | api/price.js:47 | Moving the decimal point distributes over a sum. |
| JsNumber.ShiftedWhole | api/price.js:47 | Moving the decimal point of a whole number `n` places multiplies it by ten to the `n`. |
| JsNumber.WholeValueShift | api/price.js:47 | Digits read after a prefix worth `acc` are worth `acc` shifted by their count plus their own value. |
| JsNumber.FractionValueScaled | api/price.js:47 | A fraction shifted past all its digits is worth what those digits are worth as a whole number. |
| JsNumber.WholeValueRead | api/price.js:47 | Reading `a + b` is reading `a` and then continuing with `b`. |
| JsNumber.ValueScaled | api/price.js:47 | An independent reading of `whole.fraction`: its value, with the point moved past the fraction, is the whole number spelled by all its digits in order. |
| JsNumber.LexUnsigned | api/price.js:47 | Any unsigned literal read from a text is valid and spells that text. |
| JsNumber.Lex | api/price.js:47 | Any literal read from a text is valid and spells exactly that text. |
| JsNumber.LexUnsignedSpell | api/price.js:47 | An unsigned valid literal is read back from its own text. |
| JsNumber.LexSpell | api/price.js:47 | Every valid literal is read back from its own text. This is the round trip of `Lex` and `Spell`. |
| JsNumber.Number | api/price.js:47 | `Number("")` is 0. For any other string it returns a value exactly when the string spells a valid literal, and that value is the literal's; otherwise it is NaN. |
| JsNumber.NumberSpell | api/price.js:47 | `Number` applied to the text of a valid literal gives that literal's value. |
| JsNumber.NumberRejectsComma | api/price.js:47-48 | Any text still holding a comma is NaN. |
| PriceNumber.Clean | api/price.js:43 | After stripping, only digits, `,`, `.` and `-` remain, the string is no longer, and text already in that alphabet is unchanged. |
| PriceNumber.CleanCounts | api/price.js:43 | Every kept character keeps its count and every other character is gone. |
| PriceNumber.CleanConcat | api/price.js:43 | Stripping works piece by piece, so the kept characters keep their order. |
| PriceNumber.CleanDropsDecorations | api/price.js:43 | Currency signs, codes and spaces around a numeric core are removed. The core is left exactly as it was. |
| PriceNumber.CleanNothingKept | api/price.js:43 | A string with no digit, comma, dot or minus strips to the empty string. |
| PriceNumber.CleanIdempotent | api/price.js:43 | Stripping twice is the same as stripping once. |
| PriceNumber.EuropeanFormat | api/price.js:44 | The test `includes(",") && lastIndexOf(",") > lastIndexOf(".")` holds exactly when some comma has no dot after it. |
| PriceNumber.EuroRewrite | api/price.js:44-46 | The string changes exactly when it has a comma whose last occurrence follows the last dot. When it changes, every dot is dropped and only the first comma becomes a point; numeric text stays numeric. |
| PriceNumber.EuroRewriteCounts | api/price.js:44-46 | When the rewrite fires, the result holds exactly one point and one comma fewer, and every other count is unchanged. |
| PriceNumber.RewriteKeepsNumeric | api/price.js:45 | Dropping the dots and then rewriting the first comma keeps text over digits, `,`, `.` and `-`. |
| PriceNumber.Prepare | api/price.js:43-46 | The string handed to `Number` is always over the kept alphabet. |
| PriceNumber.ToNum | api/price.js:41-49 | `null` for an absent or empty price; never 0.25; any number returned is either 0 for a string that prepares to nothing or the value of the literal the prepared text spells. |
| PriceNumber.ToNumOfLiteral | api/price.js:47-48 | A price whose prepared text spells a literal with a value other than 0.25 yields exactly that value. |
| PriceNumber.ToNumPlain | api/price.js:43-48 | A price in plain decimal notation, with any decorations, yields its literal's value. |
| PriceNumber.EuropeanTextIsEuropean | api/price.js:44 | `[-]grouped,fraction` with dot grouping is numeric, and the European test recognises it. |
| PriceNumber.EuropeanTextUndotted | api/price.js:45 | Dropping the dots of European text leaves the sign, the bare digits, the comma and the fraction. |
| PriceNumber.CommaToPoint | api/price.js:45 | Turning the first comma of `[-]whole,fraction` into a point gives the literal's own text. |
| PriceNumber.CleanEuropeanPrice | api/price.js:43 | European text followed by a currency sign or code strips to the European text itself. |
| PriceNumber.PrepareEuropean | api/price.js:43-46 | Preparing European text gives the plain text of the same literal. |
| PriceNumber.ToNumEuropean | api/price.js:44-48 | A European price, with dot thousands separators, a decimal comma and any decorations, yields the value of the literal that has the same digits and a decimal point. |
| PriceNumber.ToNumCommaBeforeDot | api/price.js:44-48 | When the last comma comes before the last dot, the comma survives and the price is `null`. |
| PriceNumber.ToNumUsStyle | api/price.js:44-48 | A US price, with comma thousands separators before a decimal point, is `null`. |
| PriceNumber.ToNumNothingKept | api/price.js:42-48 | A non-empty price with no digit, comma, dot or minus yields 0, not `null`. |
| PriceNumber.ToNumEuroCents | api/price.js:40-48 | `"0,73 €"` yields 0.73. |
| PriceNumber.ToNumEuroThousands | api/price.js:44-48 | `"1.234,56"` yields 1234.56. |
| PriceNumber.EuroThousandsPieces | api/price.js:43 | Stripping `"1.234,56"` leaves it unchanged: European text with grouped part `1.234` and fraction `56`. |
| PriceNumber.EuroThousandsGrouping | api/price.js:45 | `1.234` is digits grouped by a dot, and dropping the dot gives `1234`. |
| PriceNumber.EuroThousandsValue | api/price.js:47 | The literal `1234.56` is worth 1234.56. |
| PriceNumber.ToNumDollars | api/price.js:43-48 | `"$1.50 USD"` yields 1.5. |
| PriceNumber.ToNumUsGrouping | api/price.js:44-48 | `"1,234.56"` keeps its comma and yields `null`. |
| PriceNumber.ToNumEuroSignOnly | api/price.js:42-48 | `"€"` strips to nothing and yields 0. |
| PriceNumber.ToNumQuarterFiltered | api/price.js:48 | `"0,25€"` parses to 0.25, which is filtered out as bogus: `null`. |
| PriceHandler.OrDefault | api/price.js:5 | A destructuring default is used exactly when the parameter is absent; a given value is kept. |
| PriceHandler.NamePresent | api/price.js:6 | `!name` holds exactly when the name is absent or empty. |
| PriceHandler.Succeeded | api/price.js:26-33 | A thrown call, a body that is not JSON and a falsy body never succeed. A parsed, non-falsy body succeeds exactly when the status is 200 and `success` is `true`. |
| PriceHandler.Handle | api/price.js:3-60 | The full decision table: A request goes upstream exactly when the name is present, with the defaulted currency and appid. The code is 400 without a name and 200 otherwise. `ok` holds exactly when the name is present and Steam answered 200 with a parsed body whose `success` is `true`. The payload names the failure: missing name, thrown error, bad JSON (checked before the status), or a rejected reply. Otherwise it holds the `toNum` prices, the effective query and the clock reading. Every response is well formed. |
| PriceHandler.Answer | api/price.js:23-59 | After the name check the code is always 200. `ok` holds exactly when Steam succeeded, and the cache is 300 seconds when `ok` and 30 seconds otherwise. |
| PriceHandler.MissingNameIgnoresUpstream | api/price.js:5-8 | Without a name the answer is 400, `ok: false`, no cache header and "missing ?name=". It does not depend on the upstream outcome or the clock. |
| PriceHandler.FailuresAreShortCached | api/price.js:25-59 | A thrown error, unparseable JSON, a falsy body, a status other than 200, or a `success` that is not `true` each give 200, `ok: false` and the 30-second cache. |
| PriceHandler.SuccessGivesPrices | api/price.js:51-56 | Success gives `ok: true`, the 300-second cache, and `lowest`/`median` equal to `toNum` of the two price fields, neither of them 0.25. |
| PriceHandler.ClockOnlyStampsPrices | api/price.js:56 | The clock changes only the `ts` field of a successful response. |
| PriceHandler.RequestDefaults | api/price.js:5 | An absent `currency` becomes `"3"` and an absent `appid` becomes `"730"`. A given value, even an empty one, is kept. |

## Left out

- The `fetch` call and its `User-Agent` and `Accept` headers are I/O. Their outcome is the `Upstream` input.
- The calls on `res` (`setHeader`, `status`, `json`) are output objects. The model returns the code, the `ok` flag, the `Cache-Control` value and the payload they would carry.
- `Date.now()` is the `now` parameter.
- The URL is built with `encodeURIComponent`, a library call whose behaviour is not in the source. The model keeps the request as its three components.
- Only what the handler reads from a parsed JSON reply is kept: whether `data.success === true`, and the two price fields as strings. Any other JSON value is abstracted to these three facts. The `body` echoed in a rejected response is that abstraction, not the raw JSON.
- PriceNumber.ToNum: a price field that is not a string (a JSON number or boolean goes through `String(s)`) is not modelled. Fields are absent or strings.
- PriceNumber.ToNum: values are exact reals, not IEEE-754 doubles. In the source, a long literal that rounds to 0.25 (such as `"0.2500000000000000001"`) is filtered out, and a literal too large for a double becomes `Infinity`. In the model the first keeps its exact value and the second stays finite. `-0` is the real 0.
- JsNumber.Number: only strings over digits, `,`, `.` and `-` are modelled. The strip step makes these the only strings that reach `Number` here, so whitespace, exponents, hexadecimal and `Infinity` never arise.
- Query parameters are modelled as absent or a single string. A repeated parameter, which the runtime delivers as an array, is not modelled.
- `pages/index.js`, `pages/_app.js` and `tailwind.config.js` hold presentation only and are not modelled.
