# delicloud local server — a Dafny model

The server in `server.js` does two things of its own. Everything else is
Express and the operating system.

- **The `GET /config` handler.** It reads `config.txt` and splits the text
  on line feeds. It splits each line on `=` and keeps the first two pieces.
  When both raw pieces are non-empty, it assigns
  `config[key.trim()] = value.trim()`, so a later line overwrites an earlier
  one. It answers with the object. When the read fails, it answers with
  status 500 and `{"error": "Failed to read config file"}`.
- **`getLocalIP`.** It walks the host's interfaces in enumeration order and
  returns the address of the first record whose family is `IPv4` and that is
  not internal. When no record qualifies, it returns `"localhost"`.

The model has three modules:

- `JsString` (`js_string.dfy`) gives the semantics of the two JavaScript
  built-ins the parser uses. `Split` is `String.prototype.split` with a
  one-character separator. `Trim` is `String.prototype.trim` over the full
  ECMAScript whitespace and line-terminator set.
- `ConfigEndpoint` (`config.dfy`) holds the handler:
  - `ParseConfig` is the `forEach` loop that fills the map. It is proved
    against `ConfigOf`, the fold of the per-line assignment over the lines.
  - `HandleConfig` adds the read-failure branch. The result of the file read
    is a parameter.
  - The lemmas state what the resulting map holds.
- `LocalAddress` (`local_address.dfy`) holds `GetLocalIP`, the nested loop
  with its early return. The interface table is a parameter. The method's
  postcondition is the first-match rule.

The truthiness test at server.js:20 runs on the raw pieces, before
trimming. So a whitespace-only key or value passes it and is stored as `""`
(`ExampleBlankValue`, `ExampleBlankKeyAndValue`). A line such as `k=\r`
from a CRLF file stores `k -> ""`.

## Model

| member | source | states |
|---|---|---|
| `JsString.Split` | server.js:18-19 | `s.split(sep)` gives at least one piece, no piece contains the separator, and joining the pieces with the separator gives back `s` |
| `JsString.SplitNoSep` | server.js:19 | a line without the separator splits into the single piece `[line]`, so destructuring leaves `value` undefined |
| `JsString.SplitAtFirstSep` | server.js:19 | the first piece is everything before the first separator, and the later pieces are the split of the text after it |
| `JsString.SplitJoin` | server.js:18-19 | splitting a join of separator-free pieces gives back those pieces (the inverse of the join round trip) |
| `JsString.TrimStart` | server.js:20 | the result is a suffix of the input, everything cut off is whitespace, and the result does not start with whitespace |
| `JsString.TrimEnd` | server.js:20 | the result is a prefix of the input, everything cut off is whitespace, and the result does not end with whitespace |
| `JsString.Trim` | server.js:20 | `trim()` neither starts nor ends with whitespace, and it is empty exactly when the input is whitespace only |
| `JsString.TrimInfix` | server.js:20 | `trim()` is a contiguous part of the input with only whitespace on either side |
| `JsString.TrimUnchanged` | server.js:20 | a string with no whitespace at either end is left as it is |
| `JsString.TrimIdempotent` | server.js:20 | trimming twice is the same as trimming once |
| `ConfigEndpoint.Lines` | server.js:18 | `data.split('\n')`: at least one line, no line holds a line feed, and joining the lines with line feeds gives back the text |
| `ConfigEndpoint.ParseLine` | server.js:19-20 | what one line stores: `Some(trim(key) -> trim(value))` when the split has a second piece and both raw pieces are non-empty, `None` otherwise; its properties are the `ParseLine…` and `Example…` lemmas below |
| `ConfigEndpoint.Parsed` | server.js:18-19 | one entry (or none) per line, in line order |
| `ConfigEndpoint.Store` | server.js:17-20 | the object after assigning the entries in order, starting empty; its properties are the `Store…` lemmas below |
| `ConfigEndpoint.ConfigOf` | server.js:17-20 | the object built from the lines of the text; its properties are the `ConfigOf…` lemmas below |
| `ConfigEndpoint.ParseConfig` | server.js:17-21 | the map filled line by line by the loop equals `ConfigOf` of the lines of the text (each loop step goes through the helper lemma `StoreStep`) |
| `ConfigEndpoint.HandleConfig` | server.js:13-22 | a failed read answers 500 with the fixed error "Failed to read config file" and no map; a successful read answers 200 with the parsed map |
| `ConfigEndpoint.ParseLineFields` | server.js:19-20 | a line `key=value` optionally followed by a second '=' and more text stores `trim(key) -> trim(value)` exactly when the raw key and the raw value are both non-empty; text after a second '=' is dropped |
| `ConfigEndpoint.ParseLineNoSeparator` | server.js:19-20 | a line without '=' stores nothing |
| `ConfigEndpoint.ParseLineBlankValue` | server.js:20 | a line `key=value` with a non-empty raw key and a non-empty, whitespace-only raw value stores `trim(key) -> ""` |
| `ConfigEndpoint.ExampleSecondSeparator` | server.js:19-20 | a line `a=b=c` (one-character key and value, neither `=` nor whitespace) stores `a -> b`; the text after the second `=` is dropped |
| `ConfigEndpoint.ExampleBlankValue` | server.js:20 | a line `k=` followed by one whitespace character stores `k -> ""`, because the emptiness check sees the untrimmed value |
| `ConfigEndpoint.ExampleBlankKeyAndValue` | server.js:20 | a line of a whitespace character, `=`, and a whitespace character stores `"" -> ""` |
| `ConfigEndpoint.ExampleEmptyPieces` | server.js:19-20 | the lines `=v` (empty raw key) and `k=` (empty raw value) store nothing and raise no error |
| `ConfigEndpoint.StoreSkip` | server.js:18-20 | an absent entry leaves the assignments before and after it unaffected |
| `ConfigEndpoint.StoreLastWins` | server.js:18-20 | the last entry under a key decides that key's value |
| `ConfigEndpoint.StoreKeySource` | server.js:17-20 | every stored key has an entry that set its value, and no later entry has that key |
| `ConfigEndpoint.StoreHasKey` | server.js:18-20 | every key that some entry carries is stored |
| `ConfigEndpoint.StoreSize` | server.js:17-20 | the object never has more keys than there are entries |
| `ConfigEndpoint.MapSeqAppend` | server.js:18 | mapping over two runs of lines one after the other is mapping over each run and concatenating |
| `ConfigEndpoint.ParsedAppend` | server.js:18-19 | the entries of two runs of lines are the entries of the first run followed by those of the second |
| `ConfigEndpoint.ConfigOfSkip` | server.js:18-20 | a line that stores nothing (no '=', empty raw key or raw value) contributes nothing, wherever it stands, and raises no error |
| `ConfigEndpoint.ConfigOfLastWins` | server.js:18-20 | if line i stores `k -> v` and no later line stores `k`, the result maps `k` to `v` |
| `ConfigEndpoint.ConfigOfKeySource` | server.js:17-20 | every key of the result is the trimmed key of some qualifying line, and its value comes from the last such line |
| `ConfigEndpoint.ConfigOfKeys` | server.js:17-20 | a key is in the result if and only if some line stores it |
| `ConfigEndpoint.ConfigOfNothingStored` | server.js:17-21 | when no line qualifies, the result is the empty map |
| `ConfigEndpoint.ConfigOfEmptyText` | server.js:17-21 | an empty file is one empty line, and the answer is the empty object |
| `ConfigEndpoint.ConfigOfSize` | server.js:17-20 | the result never has more keys than the text has lines |
| `LocalAddress.GetLocalIP` | server.js:26-36 | returns the address of a record that is IPv4 and not internal, with no such record earlier in interface-then-index order; returns "localhost" when no record qualifies |

## Left out

- Static file serving (`express.static`, server.js:8) and binding the listener on port 8080 (server.js:40-42) are library calls with no logic of their own.
- The file read (`fs.readFile`, server.js:11-12) is a parameter: either the text or a failure with a detail.
- The interface enumeration (`os.networkInterfaces`, server.js:27) is a parameter: a sequence of interfaces in `Object.keys` order: names that look like array indices first, in ascending numeric order, then the other names in insertion order. Computing that order from the names is not modelled.
- Logging (`console.error`, `console.log`) and the JSON encoding of the response body are output plumbing. The body is a value: the map or the error message.
- The result is a `map`. JavaScript object quirks are not modelled, such as `__proto__` as a key, or the order in which keys are serialised.
- Strings are sequences of Unicode scalar values, not UTF-16 code units. Lone surrogates cannot be represented. The separators and whitespace characters are all single code units, so split and trim behave the same on every other string.
- HandleConfig: the reply holds the status and the body as values. Header and serialisation details of `res.json` are not captured.
