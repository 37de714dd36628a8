# Data-shaping helpers of the AZdev GraphQL API, in Dafny

The API layer of this GraphQL server holds a few small pure helpers
between the database rows and the GraphQL types. This project models them
and proves what they promise:

- `numbersInRangeObject(begin, end)` backs the `numbersInRange` query. It
  throws on an inverted range. Otherwise it loops from `begin` to `end`,
  accumulating `sum` and `count`.
- `extractPrefixedColumns({ prefixedObject, prefix })` keeps the columns of
  a row whose name starts with `prefix_` and renames them without that
  prefix. It does this with a regular expression inside a `reduce` that
  writes into an accumulator object.
- `convertArrayToObjectById(arr)` indexes a list of records by their `id`
  with a `reduce`, so a later record overwrites an earlier one.
- The `name` field of `User` is `[firstName, lastName].filter(Boolean).join(' ')`.
- The `tags` field of `Task` is `source.tags.split(',')`.

Files:

- `wrappers.dfy` (module `Wrappers`): `Option` (for `null`/`undefined`) and
  `Result` (a value or the error thrown).
- `js_strings.dfy` (module `JsStrings`): the JavaScript built-ins the helpers
  use. These are `join`, `split` on one character, and the text the
  regular-expression group `(.*)` captures.
- `utils.dfy` (module `Utils`): the three helpers of `api/src/utils.js`. The
  source runs each as a loop that updates an accumulator, so each is a
  `method` with a loop. Its contract ties the result to a recursive
  specification function (`SumBetween`, `Extracted`, `IndexedById`), and
  lemmas prove what that function means.
- `user_type.dfy` (module `UserType`) and `task_type.dfy` (module
  `TaskType`): the two computed resolvers, as functions.

Modelling choices:

- A row passed to `extractPrefixedColumns` is given as its `Object.entries`
  list, in order. The regular expression `^prefix_(.*)` is modelled
  exactly for a prefix without regular-expression metacharacters. `.` stops at a line terminator, so two keys can strip
  to the same column, and then the later entry wins. For ordinary keys
  (distinct, without line terminators) `ExtractedRowKeys` and
  `ExtractedRowValues` give the plain statement: column `k` exists exactly
  when key `prefix_k` does, and it holds that key's value.
- `convertArrayToObjectById` is generic in the record type. The parameter
  `idOf` gives the property key that a record's `id` becomes.
- `firstName`, `lastName` and the `tags` column are `Option<string>`:
  `None` is `null` or `undefined`. Reading `split` on a missing `tags`
  column throws a `TypeError`, and the model returns that error.

## Model

| member | source | states |
|---|---|---|
| `Utils.NumbersInRangeObject` | api/src/utils.js:1-12 | Fails with `InvalidRange(begin, end)` exactly when `end < begin`. Otherwise `count = end - begin + 1` and `sum` is the sum of `begin..end`, equal to `(begin + end) * (end - begin + 1) / 2`. |
| `Utils.SumBetweenClosedForm` | api/src/utils.js:5-10 | The sum of the consecutive integers `lo..hi-1` equals Gauss's closed form: twice the sum is `(lo + hi - 1) * (hi - lo)`. |
| `Utils.ExtractPrefixedColumns` | api/src/utils.js:16-25 | The loop leaves the fold `Extracted` of the entries. A column is present exactly when some input key strips to it. There are no more columns than input entries. |
| `Utils.ExtractedKeys` | api/src/utils.js:17-22 | Column `k` is in the output if and only if some entry's key matches `^prefix_` and its capture group is `k`. Keys without the prefix contribute nothing. |
| `Utils.ExtractedValue` | api/src/utils.js:18-24 | A column holds the value of the last entry whose key strips to it. |
| `Utils.ExtractedSize` | api/src/utils.js:18-24 | The output has at most as many entries as the input. |
| `Utils.StripPrefix` | api/src/utils.js:17-19 | The match succeeds exactly when the key starts with `prefix_`. The key then starts with `prefix_` followed by the capture `match[1]`. The capture has no line terminator, and it ends either at the end of the key or right before a line terminator. |
| `Utils.StripPrefixWhole` | api/src/utils.js:17-19 | For a key without line terminators, the match succeeds exactly when the key starts with `prefix_`, and the capture is everything after that leading `prefix_`. |
| `Utils.ExtractedRowKeys` | api/src/utils.js:16-24 | For a row whose keys have no line terminators, the output has key `k` if and only if the input has key `prefix_k`. |
| `Utils.ExtractedRowValues` | api/src/utils.js:17-21 | For a row with distinct keys and no line terminators, input key `prefix_k` leaves its value under output key `k`. Only the leading `prefix_` is removed. |
| `Utils.StripPrefixExamples` | api/src/utils.js:17-21 | With prefix `task`, `task_task_id` strips to `task_id`, `task_` strips to the empty column, and `taskid` does not match. |
| `Utils.ConvertArrayToObjectById` | api/src/utils.js:27-33 | The loop leaves the fold `IndexedById`. Its key set is exactly the set of ids, so `[]` gives `{}`. Every entry sits under its own id, and there are at most as many entries as items. |
| `Utils.IndexedKeys` | api/src/utils.js:27-32 | The index's key set equals the set of the items' ids, and each entry is filed under its own id. |
| `Utils.IndexedLastWins` | api/src/utils.js:28-30 | For each id, the index holds the last item carrying that id. A later item overwrites an earlier one. |
| `Utils.IndexedSize` | api/src/utils.js:28-32 | The index has at most as many entries as there are items, and exactly that many when all ids are distinct. |
| `JsStrings.LeadingLine` | api/src/utils.js:17 | The capture of `(.*)` is a prefix of the text after `prefix_` and contains no line terminator. It is either all of that text or stops right before a line terminator. |
| `JsStrings.LeadingLineWhole` | api/src/utils.js:17 | A text without line terminators is captured whole. |
| `UserType.FilterTruthy` | api/src/schema/types/user.js:16 | `filter(Boolean)` keeps a string exactly when some input value is a non-empty string equal to it. No kept string is empty, and the result is no longer than the input. |
| `UserType.FilterTruthyConcat` | api/src/schema/types/user.js:16 | Filtering keeps the order: the filter of `a + b` is the filter of `a` followed by the filter of `b`. A single value is kept exactly when it is truthy. |
| `JsStrings.Join` | api/src/schema/types/user.js:16 | `[].join(sep)` is `""`. Otherwise the result starts with the first part, and its length is the parts' total length plus one separator per gap between neighbours. |
| `JsStrings.JoinAppend` | api/src/schema/types/user.js:16 | Joining one more part appends the separator and then that part, so the parts appear in their list order. |
| `UserType.Name` | api/src/schema/types/user.js:15-17 | Both names non-empty: `firstName + " " + lastName`, first name first. Exactly one non-empty (the other `null`, `undefined` or `""`): that name alone, with no space. Neither: `""`. |
| `UserType.NameEmpty` | api/src/schema/types/user.js:16 | The name is the empty string (never `null`) exactly when neither part is a non-empty string. |
| `JsStrings.Split` | api/src/schema/types/task.js:76 | `split` on one separator gives `Count(s, sep) + 1` segments. No segment contains the separator. Joining them with the separator gives back `s`. |
| `JsStrings.SplitJoin` | api/src/schema/types/task.js:76 | Splitting the join of a non-empty list of separator-free parts gives back that list, in order. |
| `TaskType.Tags` | api/src/schema/types/task.js:76 | A missing column throws `TypeError`. Otherwise the tags joined with `","` reproduce the column exactly. No tag contains a comma. The number of tags is the number of commas plus one. |
| `TaskType.TagsOfJoined` | api/src/schema/types/task.js:76 | The tags follow the column's segment order: any non-empty list of comma-free tags, stored as its `join(',')`, comes back unchanged. |
| `TaskType.TagsWithoutComma` | api/src/schema/types/task.js:76 | A column without a comma, including `""`, gives exactly one tag, the column itself. |

## Left out

- Batched loading and caching (the `loaders.*.load` calls in `task.js`, `approach.js` and `queries.js`): the loader modules under `api/src/db/pg-api/loaders/` and the DataLoader library they use are not part of this model. Their flush scheduling is a concurrency concern.
- `api/src/db/pg-api/index.js`: creating the connection pool and running queries is I/O.
- Schema construction and `printSchema` in `api/src/schema/index.js`, and the GraphQL type declarations: these only configure a library.
- The `currentTime` resolver reads the wall clock. The `createdAt` formatting in `approach.js` calls the `Date` API.
- `Utils.NumbersInRangeObject`: does not model JavaScript's double-precision numbers or GraphQL's 32-bit `Int`. The model computes with mathematical integers, so an overflowing `sum` is not modelled.
- `Utils.NumbersInRangeObject`: the error keeps `begin` and `end` but does not render the message text `Invalid range because <end> < <begin>`. That would need number-to-decimal formatting.
- `Utils.StripPrefix`: reads `prefix` as literal text. The source puts it into a `RegExp` unescaped, so a prefix with metacharacters (`.`, `*`, `(`) behaves differently there.
- `Utils.ExtractPrefixedColumns`, `Utils.ConvertArrayToObjectById`: an accumulator key `__proto__` is an ordinary key in the model. On a plain JavaScript object it would set the prototype instead.
- `Utils.ExtractPrefixedColumns`: takes the row's entries in the order given. Putting integer-like keys first, as `Object.entries` does, is not modelled; this order only matters when two keys strip to the same column.
- `Utils.ExtractPrefixedColumns`: does not model a `null` or `undefined` `prefixedObject`, on which `Object.entries` throws a `TypeError`. The model takes the row as its list of entries, so such an input cannot be written.
- `Utils.ConvertArrayToObjectById`: does not model an `arr` that is not an array (`reduce` throws a `TypeError`). It also does not model a `null` or `undefined` element, on which reading `id` throws a `TypeError`. The model takes a sequence of records and a total `idOf`, so neither input can be written.
- `Utils.ConvertArrayToObjectById`: the conversion of an `id` to a property key (`1` and `"1"` collide) is left to the `idOf` parameter.
- Strings are sequences of Unicode scalar values, not the UTF-16 code units of JavaScript.
- The example comment after `convertArrayToObjectById` (api/src/utils.js:35-45) lists a key `"3"` that its input does not have. No property is taken from it.
