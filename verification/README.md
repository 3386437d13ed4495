# journal.py — the interactive session and its entry table

journal.py is a small command-line diary. A main menu reads one choice per
line. The choice is lower-cased and stripped; `a` adds an entry, `v` views all
entries, `s` searches them and `q` quits. Adding reads all text up to end of
input, strips it and, unless it is empty or the operator answers `n`, stores
it with a timestamp. Viewing walks the entries newest first. For each one it
asks `N/d/q`: `q` returns to the menu, `d` offers to delete the entry (only
`y` confirms), and anything else moves on. Searching reads one query and
views only the entries whose content matches it.

The model has three modules:

- `Text` (text.dfy): Python's `str.lower()` and `str.strip()` on the
  operator's lines, with lemmas on what they leave.
- `Store` (store.dfy): the `Entry` table. It is a value (`Table`: rows in
  insertion order plus the next id) and a class `EntryTable` whose `Create`
  and `DeleteInstance` change it in place and whose `Select` takes the
  listing snapshot. The listing is
  newest first, optionally narrowed by a query.
- `Session` (session.dfy): the operator's keystrokes are a script of lines,
  read through a `Console` object. Each of `menu_loop`, `add_entry`,
  `view_entries`, `search_entries` and `delete_entry` appears twice. A step
  function on a table value and a read position (`RunMenu`, `AddStep`,
  `Browse`, `ViewStep`, `SearchStep`, `DeleteStep`) is the specification. A
  method with the source's loops (`MenuLoop`, `AddEntry`, `ViewEntries`,
  `SearchEntries`, `DeleteEntry`) is proved to end in exactly the state and
  read position that the step function gives. Lemmas then state what the step
  functions do to the table and to the input.

Three things the program cannot see are parameters of the model:

- the clock: `now(k)` is the timestamp of the row that receives id `k`;
- the database's content match: a `Matcher`;
- the end of input: Python's `EOFError` from `input()` is the `eof` flag of
  a `Run`. Nothing in journal.py catches it, so it ends the program.

## Model

| member | source | states |
|---|---|---|
| `Text.Lower` | journal.py:55 | `str.lower()` on a line: the result has the input's length |
| `Text.Strip` | journal.py:72 | `str.strip()`: removes leading and trailing whitespace; the result is no longer than the input (its exact shape is `Text.StripSpec`) |
| `Text.Normalize` | journal.py:55 | `lower().strip()` as the menu (and, at journal.py:112, the view) applies it to a choice; the result is no longer than the line (its keys are characterised by `Text.NormalizeIsKey`) |
| `Text.LowerAt` | journal.py:55 | `lower()` keeps the length and lower-cases each character in place |
| `Text.LeadSpec` | journal.py:55 | the leading whitespace that `strip()` removes is all whitespace and is followed by a non-space |
| `Text.TrailSpec` | journal.py:55 | the trailing whitespace that `strip()` removes is all whitespace and is preceded by a non-space |
| `Text.StripSpec` | journal.py:72 | `strip()` is empty exactly for all-whitespace text; otherwise it is the factor from the first to the last non-space, so it neither starts nor ends with whitespace |
| `Text.StripIsKey` | journal.py:55 | a stripped line is the single character `c` exactly when the line is `c` with only whitespace around it |
| `Text.NormalizeIsKey` | journal.py:112 | `lower().strip()` gives the one-letter key `k` exactly when the line is `k` or its capital with only whitespace around it |
| `Text.LowerIsLetter` | journal.py:77 | for the model's ASCII-only `Lower`, the answer lower-cases to the one-letter string `k` exactly when it is `k` or its capital, with no whitespace allowed; for the two letters journal.py compares (`n` at :77, `y` at :130) this is also what Python's `lower()` does |
| `Store.Created` | journal.py:79 | `Entry.create` appends one row under the counter's id and moves the counter on; for stored (stripped, non-empty) content it keeps the table invariant |
| `Store.Removed` | journal.py:131 | `delete_instance` leaves an order-preserving subsequence of the rows holding exactly the rows whose id differs from the deleted one, and keeps the id counter |
| `Store.Listing` | journal.py:89-93 | the `select().order_by(timestamp.desc())` listing, narrowed by `where(content.contains(query))` when a query is given, is newest first |
| `Store.Filter` | journal.py:93 | the narrowed rows are exactly the rows that match, and there are no more of them than before |
| `Store.ByNewest` | journal.py:89 | the listing order is non-increasing in timestamp and is a permutation of the table's rows |
| `Store.ListingProperties` | journal.py:89-93 | the listing is newest first and an order-preserving subsequence of the full listing; with no query or an empty query it is a permutation of the table; with a query it holds exactly the rows whose content matches |
| `Store.ByNewestReverses` | journal.py:89 | when every row was stamped later than the rows created before it, newest first is exactly the reverse of insertion order |
| `Store.CreatedValid` | journal.py:79 | creating a row with stripped, non-empty content keeps the table invariant (unique increasing ids below the counter, stored text only), and the new id is used by no existing row |
| `Store.CreatedIsListed` | journal.py:79 | after a creation, the next unfiltered listing holds the new row with the saved content under an id no earlier row has |
| `Store.RemovedEffect` | journal.py:131 | deleting by id keeps the invariant, removes every row with that id, keeps every other row in its order, and changes nothing when no row has the id |
| `Store.EntryTable.constructor` | journal.py:25-30 | a newly initialised database holds an empty table that satisfies the invariant |
| `Store.EntryTable.Create` | journal.py:79 | the row with the next id, the content and the given timestamp is appended, the counter moves on, and the created row is returned |
| `Store.EntryTable.DeleteInstance` | journal.py:131 | the table afterwards is the table without the rows carrying the id |
| `Store.EntryTable.Select` | journal.py:89-93 | the snapshot the view walks is newest first and an order-preserving subsequence of all rows newest first; with no query or an empty query it holds every row of the table exactly once; with a query it holds exactly the rows whose content matches; the table is not changed |
| `Session.DeleteStep` | journal.py:127-132 | `delete_entry(entry)`: one answer is read; only a `y` confirmation removes the entry; at end of input the program stops; reading goes forward and never past the end of the script (effects in `Session.DeleteEffect`) |
| `Session.AddStep` | journal.py:66-81 | `add_entry()`: the text to end of input is stripped; only non-empty text asks for a confirmation and only a confirmed one is created, stamped by the clock; reading goes forward and never past the end of the script (effects in `Session.AddEffect`) |
| `Session.Browse` | journal.py:96-116 | the `for entry in entries` loop: one `N/d/q` answer per entry, `q` breaks, `d` runs the delete prompt; reading goes forward and never past the end of the script (effects in `Session.BrowseEffect`, `Session.BrowseKeepsUnlisted`, `Session.BrowseWithoutDelete`) |
| `Session.ViewStep` | journal.py:86-116 | `view_entries(query)` walks the listing of the table for the query; reading goes forward and never past the end of the script |
| `Session.SearchStep` | journal.py:120-123 | `search_entries()` reads one query line and views the entries filtered by it; at end of input the program stops; reading goes forward and never past the end of the script |
| `Session.DispatchStep` | journal.py:59-62 | `menu[choice]()`: the command runs its own step; reading goes forward and never past the end of the script (invariant in `Session.DispatchValid`) |
| `Session.RunMenu` | journal.py:39-62 | `menu_loop()`: one choice line per round, lower-cased and stripped; `q` ends the session, a menu key runs its action, anything else shows the menu again; an action that hits end of input ends the program; reading goes forward and never past the end of the script (properties in `Session.MenuQuits` … `Session.RunMenuValid`) |
| `Session.Find` | journal.py:59 | `choice in menu` fails exactly when no key of the table equals the choice; otherwise `menu[choice]` is a command bound to that key |
| `Session.Lookup` | journal.py:136-140 | the menu knows exactly the keys `a` (add), `v` (view) and `s` (search) |
| `Session.SaveAnswer` | journal.py:77 | only `n` and `N` decline to save; `" n"` or `no` save |
| `Session.DeleteAnswer` | journal.py:130 | only `y` and `Y` confirm a deletion; any other answer, including the empty one, cancels |
| `Session.MenuQuits` | journal.py:45-55 | a line that is `q` or `Q` with only whitespace around it ends the session there, with the table unchanged |
| `Session.MenuIgnores` | journal.py:55-59 | a line that is not `q`, `a`, `v` or `s` (in either case) with whitespace around it runs no action, leaves the table unchanged and is followed by the next choice |
| `Session.MenuAdds` | journal.py:55-62 | a line that is `a` or `A` with only whitespace around it runs `add_entry` on the following lines, and the menu resumes where it stopped unless input ran out |
| `Session.MenuViews` | journal.py:55-62 | a line that is `v` or `V` with only whitespace around it runs `view_entries()` without a query on the following lines, and the menu resumes where it stopped unless input ran out |
| `Session.MenuSearches` | journal.py:55-62 | a line that is `s` or `S` with only whitespace around it runs `search_entries` on the following lines, and the menu resumes where it stopped unless input ran out |
| `Session.MenuEndsOnQuit` | journal.py:42-55 | a session that does not run out of input ends on a line it read whose normalised choice is `q` |
| `Session.AddEffect` | journal.py:66-81 | add reads one text; all-whitespace text asks nothing and changes nothing; otherwise one confirmation is read; any answer but `n`/`N` appends exactly one row with the stripped text under a fresh id, keeping the invariant; `n`/`N` changes nothing; input ending before the answer stops the program |
| `Session.DeleteEffect` | journal.py:127-132 | every answer reads exactly one line and the session goes on; `y`/`Y` removes exactly the rows with the entry's id, keeps the rest in order, the id counter and the invariant; any other answer changes nothing |
| `Session.BrowseQuits` | journal.py:112-114 | at a listed entry, an answer that is `q` or `Q` with only whitespace around it leaves the view after that line with the table unchanged, however many entries remain |
| `Session.BrowseDeletes` | journal.py:112-116 | at a listed entry, an answer that is `d` or `D` with only whitespace around it runs the delete prompt for that entry on the next line, and the view goes on with the remaining entries from the table it leaves, unless input ran out |
| `Session.BrowseNext` | journal.py:112-116 | at a listed entry, an answer with no `q`/`Q`/`d`/`D` between whitespace (the empty answer included) shows the next entry with the table unchanged, one line later |
| `Session.BrowseEffect` | journal.py:96-116 | the view reads at most two lines per listed entry and nothing for an empty listing; it only removes rows, keeping order, the invariant and the id counter |
| `Session.BrowseKeepsUnlisted` | journal.py:96-116 | a row whose id was not listed is still in the table after the view |
| `Session.BrowseWithoutDelete` | journal.py:112-114 | with no `d` among the answers the view can read (one per listed entry), the view changes nothing and reads at most one line per listed entry; `q` at the first entry stops after one line |
| `Session.DispatchValid` | journal.py:62 | each of the three actions keeps the table invariant and never lowers the id counter |
| `Session.RunMenuValid` | journal.py:39-62 | a whole session keeps the table invariant: ids stay unique and every stored content is stripped, non-empty text |
| `Session.Console.Input` | journal.py:55 | `input()` returns the next line and moves on by one, or reports end of input and reads nothing |
| `Session.Console.ReadAll` | journal.py:72 | `sys.stdin.read()` returns the next text, or the empty text at the end of input |
| `Session.DeleteEntry` | journal.py:127-132 | `delete_entry` ends in the state and read position `DeleteStep` gives |
| `Session.AddEntry` | journal.py:66-81 | `add_entry` ends in the state and read position `AddStep` gives |
| `Session.ShowEntry` | journal.py:96-116 | one pass of the `for entry in entries` body agrees with the first step of `Browse`, and reports the `break` on `q` |
| `Session.ViewEntries` | journal.py:86-116 | `view_entries(query)` ends in the state and read position `ViewStep` gives for the snapshot listing |
| `Session.SearchEntries` | journal.py:120-123 | search reads exactly one query line and then behaves exactly as the view filtered by that line; at end of input it stops without reading or changing anything |
| `Session.Dispatch` | journal.py:62 | `menu[choice]()` runs the action `DispatchStep` describes |
| `Session.MenuTurn` | journal.py:45-62 | one pass of the `while` body reads one choice, advances the input, and agrees with `RunMenu` (quit, or continue from the new state) |
| `Session.MenuLoop` | journal.py:39-62 | `menu_loop` ends in the state and read position `RunMenu` gives, and keeps the table invariant |

## Left out

- The SQLite database and peewee: `SqliteDatabase`, `db.connect`,
  `create_tables`, SQL generation and the file `diary.db`. The table is an
  in-memory sequence. `EntryTable.constructor` stands for a fresh database
  file. A table read from an existing file is any table satisfying `Valid`,
  and the session lemmas take any such table.
- The content match of `Entry.content.contains(query)` (journal.py:93). This
  is SQLite `LIKE` with its own case folding and wildcards. It is the
  parameter `matches`, and only ordering, subsequence and membership are
  stated about the result.
- The query is taken as a snapshot when the view starts. Whether peewee's
  cursor would see rows deleted during the loop is not modelled.
- Store.Created: ids come from a counter that is never lowered. SQLite without
  `AUTOINCREMENT` gives the largest live id plus one, so the id of a deleted
  newest row can come back. Every clause that names an exact id or says the
  counter is kept or not lowered follows the counter rule: `Store.Created`,
  `Store.Removed`, `Store.EntryTable.Create`, `Store.CreatedIsListed`,
  `Session.AddEffect`, `Session.DeleteEffect`, `Session.BrowseEffect`,
  `Session.DispatchValid` and `Session.RunMenuValid`. Only the freshness of
  the new id (no live row has it) and the table invariant hold under both
  rules.
- Store.ByNewest: rows with equal timestamps keep their insertion order.
  SQLite leaves that order unspecified.
- `datetime.datetime.now` is the `Clock` parameter. `strftime`, the
  separators, every `print` and the menu rendering with the handlers'
  docstrings are presentation (journal.py:47-53, 99-110) and are not modelled.
  The menu's order is kept in the constant `Menu`.
- `clear()` (journal.py:34-35) is an external side effect.
- Text.Lower: only the ASCII letters are lower-cased. Python's `str.lower()`
  also maps other letters, and one of them (`İ`) to two characters. No non-ASCII
  character lowers to one of the keys `q`, `a`, `v`, `s`, `d`, `n`, `y` or to
  whitespace. So every decision the session takes is the same as Python's.
  Stored content and search queries are never lower-cased.
- Text.IsSpace is the character set Python's `str.isspace` accepts. The text
  that `sys.stdin.read()` returns up to end of input (Ctrl+D) is one element
  of the script. How a terminal delivers it is not modelled.
- The `__main__` block (journal.py:144-146), `KeyboardInterrupt` and storage
  failures are not modelled.

Two details of journal.py that the model keeps as written:

- The `[Y/n]` and `[y/N]` answers are lower-cased but not stripped
  (journal.py:77, 130), so `" n"` saves and `" y"` does not delete.
- `Entry.create` does not reject empty content; only `add_entry`'s `if data:`
  (journal.py:75) keeps it out. So `Store.Created` takes any content and
  `Store.CreatedValid` requires stored text.
