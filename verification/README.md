# evlite core, modelled in Dafny

evlite is a tiny line-oriented data store: a prompt reads `insert` and
`select` statements, rows of dogs (`id`, name, breed) are appended to an
in-memory table, and an ordered index (a B-tree) is started but not finished.
This project models the three components that carry logic:

- `b_tree.dfy` (module `BTreeIndex`): the B-tree skeleton as datatypes and
  pure functions — `Entry`, `Node`, `BTree`, construction, `is_empty`, the
  recursive `search`, `get`, and `put`, whose body is empty and which is
  therefore the identity. The only tree a program can build is the empty
  one. `search` is kept as written: it picks the leaf scan or the descent
  from the tree's `height` (not from its `h` argument), and descends into
  entry `i` when `i + 1 == size` or entry `i + 1`'s key is *below* the
  target. The read of entry `i + 1` past the end, a panic in the source, is
  the outcome `Panicked`. Keys are `int`; values are a type parameter.
- `database.dfy` (module `Database`): the `Row` record,
  `Row::new` as the parser `NewRow` returning a `Result` whose error names the
  field whose `unwrap` panics, and `Table` as a class over a `seq<Row>`
  field with `InsertRow` (append) and `RowCount`.
  Two standard-library behaviours it relies on are modelled on their own:
  `whitespace.dfy` (module `Whitespace`) is `split_whitespace` over the
  Unicode White_Space characters, and `int_parse.dfy` (module `IntParse`) is
  `parse::<i32>()`: an optional sign, one or more ASCII digits, failure outside
  [-2^31, 2^31 - 1]. Its partner is the decimal formatter `ShowInt`.
- `statement.dfy` (module `Statements`): the case-sensitive prefix
  classifier (`select` first, then `insert`) and `prepare_statement`, which
  builds a row exactly for an insert and fails when `Row::new` would panic.

`wrappers.dfy` holds the `Option` and `Result` datatypes.

What the lookup model shows about the code as written: at a nonzero height
a search only ever descends and never reads a value, so it yields nothing or
panics (`Search`, `Get`); the `h` argument is never consulted
(`SearchIgnoresDepth`); and `Node::new(size)` stores a capacity in the field
that `search` reads as an entry count, which is harmless for the empty nodes
that exist; but at a nonzero height, a search of a node with entries whose
`size` exceeds its entry count panics whenever no entry after the first has
a key below the target (`NewNodeSizeIsCapacity`, `CapacityAsCountPanics`).

The code has no insertion or splitting: `put` is empty, `degree` is never
read, `new` accepts any `i16`, and the descent rule is the one above rather
than the usual descent into the child before the first key greater than the
target.

## Model

| member | source | states |
|---|---|---|
| `BTreeIndex.NewNode` | src/b_tree.rs:16-21 | a new node has no entries and keeps the given number in `size` |
| `BTreeIndex.NewTree` | src/b_tree.rs:32-39 | a new tree has an entry-less root of size 0, height 0, key count 0 and the degree given, whatever it is |
| `BTreeIndex.IsEmpty` | src/b_tree.rs:41-43 | true exactly when the key count is 0 |
| `BTreeIndex.NewTreeIsEmpty` | src/b_tree.rs:41-43 | `is_empty` holds of every freshly built tree |
| `BTreeIndex.LeafLookup` | src/b_tree.rs:47-52 | the leaf scan finds a value exactly when some entry has the key, and then it is the value of the first such entry |
| `BTreeIndex.RouteFrom` | src/b_tree.rs:54-58 | the descent loop picks the first entry `i` with `i + 1 == size` or entry `i + 1`'s key below the target, passing over all earlier ones; it runs out exactly on an entry-less node; when it fails by reading past the last entry, `size` is not the entry count and every earlier entry was passed over |
| `BTreeIndex.Search` | src/b_tree.rs:45-61 | at height 0 the result is the first matching entry's value or nothing; at a nonzero height it is never a value, only nothing or a panic; the recursion is on a sub-node, so it terminates |
| `BTreeIndex.SearchDescendsAtFirstTaken` | src/b_tree.rs:53-57 | at a nonzero height the search result is that of the node owned by the first entry the routing rule takes |
| `BTreeIndex.SearchPanicsPastLastEntry` | src/b_tree.rs:54-55 | at a nonzero height, when every entry but the last is passed over and `size` is not the entry count, the search panics |
| `BTreeIndex.SearchChildless` | src/b_tree.rs:46-60 | a node with no entries yields nothing at any height |
| `BTreeIndex.SearchIgnoresDepth` | src/b_tree.rs:45-56 | the result does not depend on the `h` argument |
| `BTreeIndex.SearchNoPanicWhenSizesCount` | src/b_tree.rs:55 | if every node's `size` is its entry count, a search never panics |
| `BTreeIndex.NewNodeSizeIsCapacity` | src/b_tree.rs:16-20 | a node from `Node::new` has `size` equal to its entry count only for capacity 0 |
| `BTreeIndex.CapacityAsCountPanics` | src/b_tree.rs:16-20 | at a nonzero height, a node with entries and a `size` above its entry count panics when no later key is below the target |
| `BTreeIndex.Get` | src/b_tree.rs:63-65 | `get` searches from the root with the tree's height: at height 0 it finds a value exactly when a root entry has the key, and then it is the first such entry's value; at a nonzero height never a value |
| `BTreeIndex.Put` | src/b_tree.rs:67 | `put` leaves root, degree, height and key count unchanged |
| `BTreeIndex.PutAllUnchanged` | src/b_tree.rs:67 | any sequence of puts leaves the tree as it was |
| `BTreeIndex.GetAfterPuts` | src/b_tree.rs:32-39 | a tree built by `new` followed by any puts is empty, has height 0, and `get` finds no key |
| `Whitespace.Tokens` | src/database.rs:35 | every token is non-empty and free of whitespace |
| `Whitespace.TokensSplitAt` | src/database.rs:35 | one whitespace character cuts the text into two halves tokenised independently |
| `Whitespace.TokensCollapseWhitespace` | src/database.rs:35 | any run of whitespace separates tokens as one character does: leading, trailing and repeated whitespace do not matter |
| `Whitespace.TokensJoinSpaced` | src/database.rs:35 | tokenising words joined by single spaces gives the words back |
| `Whitespace.TokensLayoutIndependent` | src/database.rs:35 | a text and the single-space layout of its tokens have the same tokens |
| `IntParse.ParseI32` | src/database.rs:38 | parsing fails on the empty text, a lone sign, a first character that is neither sign nor digit, and any later non-digit; a result's sign agrees with the text's |
| `IntParse.ParseShowInt` | src/database.rs:38 | the decimal text of `n` parses back to `n` exactly when `n` fits in `i32`, and fails otherwise |
| `IntParse.ParseSignedDigits` | src/database.rs:38 | a sign (or none) followed by one or more digits parses to their signed value when it fits in `i32`, and fails otherwise |
| `IntParse.ParseSignedPadded` | src/database.rs:38 | any sign and any number of leading zeros before a number's decimal text give that signed number when it fits in `i32`, and an overflow failure otherwise |
| `IntParse.DigitsArePaddedDecimal` | src/database.rs:38 | every non-empty digit string is leading zeros followed by a number's decimal text, so the lemma above covers every text that can parse |
| `IntParse.ShowNatCanonical` | src/database.rs:38 | digits without a leading zero are the decimal text of their value |
| `IntParse.ParsePaddedExamples` | src/database.rs:38 | `007` parses to 7 and `-05` to -5 |
| `Database.NewRow` | src/database.rs:34-42 | a row is built exactly when there are at least four tokens and the second parses as `i32`; then id, name and breed are tokens 2, 3 and 4 and name and breed are non-empty and whitespace-free; fewer than two tokens or a bad id fail with the corresponding error |
| `Database.NewRowRoundTrip` | src/database.rs:34-42 | every row with single-token name and breed is recovered from the text `<word> <id> <name> <breed>` |
| `Database.NewRowLayoutIndependent` | src/database.rs:35 | the row does not depend on leading, trailing or repeated whitespace |
| `Database.NewRowIgnoresExtraTokens` | src/database.rs:36-41 | tokens after the fourth are ignored |
| `Database.NewRowExample` | src/database.rs:50-55 | `insert 1 evie jindo` gives id 1, name `evie`, breed `jindo` |
| `Database.Table.constructor` | src/database.rs:7-9 | a new table has no rows |
| `Database.Table.InsertRow` | src/database.rs:11-13 | the rows become the old rows followed by the inserted one; the count grows by one and earlier rows keep their places |
| `Database.Table.RowCount` | src/database.rs:21-23 | the count is the number of stored rows and reads the table only |
| `Database.TableScenario` | src/database.rs:58-63 | a new table counts 0 rows and 1 after inserting the row of `insert 1 evie jindo` |
| `Statements.StartsWith` | src/statement.rs:12-14 | the character-by-character test holds exactly when the pattern is a prefix of the text |
| `Statements.GetStatementType` | src/statement.rs:11-18 | `Select` exactly when the text begins with `select`; `Insert` exactly when it begins with `insert` and not `select`; `Unrecognized` otherwise |
| `Statements.ClassifyByPrefix` | src/statement.rs:11-18 | only the prefix counts (`selectx` is a select) and the test is case-sensitive: empty text and text not beginning with lower-case `s` or `i` are unrecognised |
| `Statements.PrepareStatement` | src/statement.rs:27-39 | the text is kept, the type is its classification, a row is present exactly for an insert and is the row `Row::new` builds; failure happens exactly for an insert whose row cannot be built, with that error |
| `Statements.PrepareSelect` | src/statement.rs:29-32 | a select never fails and carries no row |
| `Statements.PrepareInsertRoundTrip` | src/statement.rs:29-30 | the statement `insert <id> <name> <breed>` of any row with single-token name and breed yields an insert carrying that row |
| `Statements.PrepareShortInsertFails` | src/statement.rs:30 | an insert with fewer than four tokens fails |
| `Statements.PrepareExamples` | src/statement.rs:46-53 | `select *` is a select without row; `insert 1 evie jindo` is an insert with the row (1, `evie`, `jindo`) |

## Left out

- src/main.rs: the prompt loop, reading standard input, printing, trimming the input line and `handle_meta_command` are input/output plumbing with no state the core depends on.
- `Table::select_rows` (src/database.rs:15-19) only prints the rows.
- BTreeIndex.Search: `h` is an unbounded integer, so the `i16` overflow of `h - 1` (a debug-build panic only when `h` reaches -32768) is not modelled.
- BTreeIndex: keys are `int` rather than any `Ord` type; `Vec::with_capacity` and the `Clone` bounds have no observable effect and are left out.
- IntParse.ParseI32: every `Err` Rust can return (empty, invalid digit, overflow) is `None`, because `Row::new` unwraps each of them into the same panic.
- Database.Table.RowCount: the count is a `nat`, not a `usize`; a vector cannot outgrow `usize` anyway.
- A panic is modelled as an error value (`Panicked`, `Err`), not as termination of the process.
