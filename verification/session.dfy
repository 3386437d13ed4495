/** The interactive session of journal.py: the main menu loop, the add, view,
    search and delete actions, and the ordered command table. The operator's
    keystrokes are a script of lines; each `input()` (and the one read until
    end of input in `add_entry`) consumes the next line of it.

    Each action is given twice: as a step function on a table value and the
    unread script (the specification), and as a method on an `EntryTable`
    and a `Console` that does what journal.py does and is proved to end in
    the state the step function gives. */
module Session {
  import opened Text
  import opened Store

  /** The clock: `now(k)` is what `datetime.datetime.now` reads when the row
      that receives id `k` is created. */
  type Clock = nat -> int

  /** Where part of a session leaves things: the table, how many lines of
      the script have been read, and whether it stopped because `input()`
      found no line left (Python raises EOFError there, which nothing in
      journal.py catches, so the whole program stops). */
  datatype Run = Run(table: Table, pos: nat, eof: bool)

  datatype Command = AddCmd | ViewCmd | SearchCmd

  /** The `menu` table, in its insertion order. */
  const Menu: seq<(string, Command)> := [("a", AddCmd), ("v", ViewCmd), ("s", SearchCmd)]

  /** Reading goes forward through the script and stops at its end. */
  predicate ReadsForward(script: seq<string>, pos: nat, r: Run) {
    pos <= r.pos && (pos <= |script| ==> r.pos <= |script|)
  }

  /** The command `table` binds to `key`, as `key in menu` and `menu[key]` find it. */
  function Find(table: seq<(string, Command)>, key: string): (r: Option<Command>)
    ensures r.None? <==> forall i :: 0 <= i < |table| ==> table[i].0 != key
    ensures r.Some? ==> exists i :: 0 <= i < |table| && table[i] == (key, r.value)
  {
    if table == [] then None
    else if table[0].0 == key then Some(table[0].1)
    else Find(table[1..], key)
  }

  /** The main menu knows exactly the keys `a`, `v` and `s`. */
  function Lookup(choice: string): (r: Option<Command>)
    ensures r == Some(AddCmd) <==> choice == "a"
    ensures r == Some(ViewCmd) <==> choice == "v"
    ensures r == Some(SearchCmd) <==> choice == "s"
    ensures r.None? <==> choice != "a" && choice != "v" && choice != "s"
  {
    assert Menu[0] == ("a", AddCmd) && Menu[1] == ("v", ViewCmd) && Menu[2] == ("s", SearchCmd);
    Find(Menu, choice)
  }

  /** The answer to `Save entry? [Y/n]`: lower-cased, not stripped. */
  predicate SaveConfirmed(answer: string) {
    Lower(answer) != "n"
  }

  /** The answer to `Are you sure you want to delete? [y/N]`: lower-cased, not stripped. */
  predicate DeleteConfirmed(answer: string) {
    Lower(answer) == "y"
  }

  /** Only `n` and `N` decline to save; ` n` or `no` save. */
  lemma SaveAnswer(answer: string)
    ensures !SaveConfirmed(answer) <==> answer == "n" || answer == "N"
  {
    LowerIsLetter(answer, 'n');
  }

  /** Only `y` and `Y` confirm a deletion; `yes`, ` y` and the empty answer do not. */
  lemma DeleteAnswer(answer: string)
    ensures DeleteConfirmed(answer) <==> answer == "y" || answer == "Y"
  {
    LowerIsLetter(answer, 'y');
  }

  /** `delete_entry(entry)`: one answer is read; only a confirming one
      removes the entry. */
  function DeleteStep(t: Table, entry: Entry, script: seq<string>, pos: nat): (r: Run)
    ensures ReadsForward(script, pos, r)
  {
    if pos >= |script| then Run(t, pos, true)
    else if DeleteConfirmed(script[pos]) then Run(Removed(t, entry.id), pos + 1, false)
    else Run(t, pos + 1, false)
  }

  /** `add_entry()`: the text up to end of input is read and stripped (read at
      the end of the script it is empty); only non-empty text asks for a
      confirmation, and only a confirmed one is saved, stamped by the clock. */
  function AddStep(t: Table, script: seq<string>, pos: nat, now: Clock): (r: Run)
    ensures ReadsForward(script, pos, r)
  {
    if pos >= |script| then Run(t, pos, false)
    else
      var data := Strip(script[pos]);
      if data == "" then Run(t, pos + 1, false)
      else if pos + 1 >= |script| then Run(t, pos + 1, true)
      else if SaveConfirmed(script[pos + 1]) then Run(Created(t, data, now(t.nextId)), pos + 2, false)
      else Run(t, pos + 2, false)
  }

  /** The `for entry in entries` loop of `view_entries`: one `N/d/q` answer
      per listed entry; `q` leaves the loop, `d` asks to delete the entry
      shown and goes on, anything else goes on. */
  function Browse(t: Table, listing: seq<Entry>, script: seq<string>, pos: nat): (r: Run)
    ensures ReadsForward(script, pos, r)
    decreases |listing|
  {
    if listing == [] then Run(t, pos, false)
    else if pos >= |script| then Run(t, pos, true)
    else
      var action := Normalize(script[pos]);
      if action == "q" then Run(t, pos + 1, false)
      else if action == "d" then
        var d := DeleteStep(t, listing[0], script, pos + 1);
        if d.eof then d else Browse(d.table, listing[1..], script, d.pos)
      else Browse(t, listing[1..], script, pos + 1)
  }

  /** `view_entries(query)`: the listing is taken once, then browsed. */
  function ViewStep(t: Table, query: Option<string>, script: seq<string>, pos: nat, matches: Matcher): (r: Run)
    ensures ReadsForward(script, pos, r)
  {
    Browse(t, Listing(t.rows, query, matches), script, pos)
  }

  /** `search_entries()`: one query line, then the view filtered by it. */
  function SearchStep(t: Table, script: seq<string>, pos: nat, matches: Matcher): (r: Run)
    ensures ReadsForward(script, pos, r)
  {
    if pos >= |script| then Run(t, pos, true)
    else ViewStep(t, Some(script[pos]), script, pos + 1, matches)
  }

  function DispatchStep(cmd: Command, t: Table, script: seq<string>, pos: nat, now: Clock, matches: Matcher): (r: Run)
    ensures ReadsForward(script, pos, r)
  {
    match cmd
    case AddCmd => AddStep(t, script, pos, now)
    case ViewCmd => ViewStep(t, None, script, pos, matches)
    case SearchCmd => SearchStep(t, script, pos, matches)
  }

  /** `menu_loop()`: one choice line per round, lower-cased and stripped;
      `q` ends the session, a menu key runs its action, anything else shows
      the menu again. */
  function RunMenu(t: Table, script: seq<string>, pos: nat, now: Clock, matches: Matcher): (r: Run)
    ensures ReadsForward(script, pos, r)
    decreases |script| - pos
  {
    if pos >= |script| then Run(t, pos, true)
    else
      var choice := Normalize(script[pos]);
      if choice == "q" then Run(t, pos + 1, false)
      else match Lookup(choice)
        case None => RunMenu(t, script, pos + 1, now, matches)
        case Some(cmd) =>
          var s := DispatchStep(cmd, t, script, pos + 1, now, matches);
          if s.eof then s else RunMenu(s.table, script, s.pos, now, matches)
  }

  // ---------------------------------------------------------------------
  // Properties of the session

  /** One round of the menu reads one line: `q` (in any case, with any
      surrounding whitespace) ends the session there, and a choice that is
      no menu key changes nothing and goes on with the next line. */
  lemma MenuRound(t: Table, script: seq<string>, pos: nat, now: Clock, matches: Matcher)
    requires pos < |script|
    ensures Normalize(script[pos]) == "q" ==>
              RunMenu(t, script, pos, now, matches) == Run(t, pos + 1, false)
    ensures var c := Normalize(script[pos]);
            c != "q" && c != "a" && c != "v" && c != "s" ==>
              RunMenu(t, script, pos, now, matches) == RunMenu(t, script, pos + 1, now, matches)
  {
  }

  /** A line that is `q` or `Q` between whitespace ends the session right
      there, with the table as it is. */
  lemma MenuQuits(t: Table, script: seq<string>, pos: nat, now: Clock, matches: Matcher, i: nat)
    requires pos < |script| && i < |script[pos]| && LowerChar(script[pos][i]) == 'q'
    requires AllSpace(script[pos][..i]) && AllSpace(script[pos][i + 1..])
    ensures RunMenu(t, script, pos, now, matches) == Run(t, pos + 1, false)
  {
    NormalizeIsKey(script[pos], 'q');
    MenuRound(t, script, pos, now, matches);
  }

  /** A line that is not one of `q`, `a`, `v`, `s` (either case) between
      whitespace is ignored by the menu: the table is unchanged and the next
      line is the next choice. */
  lemma MenuIgnores(t: Table, script: seq<string>, pos: nat, now: Clock, matches: Matcher)
    requires pos < |script|
    requires forall i :: 0 <= i < |script[pos]| && AllSpace(script[pos][..i]) && AllSpace(script[pos][i + 1..])
                         ==> LowerChar(script[pos][i]) !in "qavs"
    ensures RunMenu(t, script, pos, now, matches) == RunMenu(t, script, pos + 1, now, matches)
  {
    NormalizeIsKey(script[pos], 'q');
    NormalizeIsKey(script[pos], 'a');
    NormalizeIsKey(script[pos], 'v');
    NormalizeIsKey(script[pos], 's');
    MenuRound(t, script, pos, now, matches);
  }

  /** A choice that is a menu key runs its action on the next lines and,
      unless input ran out, the menu goes on where the action stopped. */
  lemma MenuDispatch(t: Table, script: seq<string>, pos: nat, now: Clock, matches: Matcher)
    requires pos < |script| && Lookup(Normalize(script[pos])).Some?
    ensures var s := DispatchStep(Lookup(Normalize(script[pos])).value, t, script, pos + 1, now, matches);
            RunMenu(t, script, pos, now, matches) == if s.eof then s else RunMenu(s.table, script, s.pos, now, matches)
  {
  }

  /** A line that is `a` or `A` between whitespace runs `add_entry` on the
      following lines; the menu then resumes where it stopped, unless input
      ran out. */
  lemma MenuAdds(t: Table, script: seq<string>, pos: nat, now: Clock, matches: Matcher, i: nat)
    requires pos < |script| && i < |script[pos]| && LowerChar(script[pos][i]) == 'a'
    requires AllSpace(script[pos][..i]) && AllSpace(script[pos][i + 1..])
    ensures var s := AddStep(t, script, pos + 1, now);
            RunMenu(t, script, pos, now, matches) == if s.eof then s else RunMenu(s.table, script, s.pos, now, matches)
  {
    NormalizeIsKey(script[pos], 'a');
    MenuDispatch(t, script, pos, now, matches);
  }

  /** A line that is `v` or `V` between whitespace runs `view_entries()` with
      no query on the following lines; the menu then resumes where it
      stopped, unless input ran out. */
  lemma MenuViews(t: Table, script: seq<string>, pos: nat, now: Clock, matches: Matcher, i: nat)
    requires pos < |script| && i < |script[pos]| && LowerChar(script[pos][i]) == 'v'
    requires AllSpace(script[pos][..i]) && AllSpace(script[pos][i + 1..])
    ensures var s := ViewStep(t, None, script, pos + 1, matches);
            RunMenu(t, script, pos, now, matches) == if s.eof then s else RunMenu(s.table, script, s.pos, now, matches)
  {
    NormalizeIsKey(script[pos], 'v');
    MenuDispatch(t, script, pos, now, matches);
  }

  /** A line that is `s` or `S` between whitespace runs `search_entries` on
      the following lines; the menu then resumes where it stopped, unless
      input ran out. */
  lemma MenuSearches(t: Table, script: seq<string>, pos: nat, now: Clock, matches: Matcher, i: nat)
    requires pos < |script| && i < |script[pos]| && LowerChar(script[pos][i]) == 's'
    requires AllSpace(script[pos][..i]) && AllSpace(script[pos][i + 1..])
    ensures var s := SearchStep(t, script, pos + 1, matches);
            RunMenu(t, script, pos, now, matches) == if s.eof then s else RunMenu(s.table, script, s.pos, now, matches)
  {
    NormalizeIsKey(script[pos], 's');
    MenuDispatch(t, script, pos, now, matches);
  }

  /** A session that ends without running out of input ended on a menu
      choice that normalised to `q`: the last line it read. */
  lemma {:induction false} MenuEndsOnQuit(t: Table, script: seq<string>, pos: nat, now: Clock, matches: Matcher, r: Run)
    requires pos <= |script| && r == RunMenu(t, script, pos, now, matches)
    ensures !r.eof ==> pos < r.pos <= |script| && Normalize(script[r.pos - 1]) == "q"
    decreases |script| - pos
  {
    if pos < |script| && Normalize(script[pos]) != "q" {
      var cmd := Lookup(Normalize(script[pos]));
      if cmd.None? {
        MenuEndsOnQuit(t, script, pos + 1, now, matches, r);
      } else {
        var s := DispatchStep(cmd.value, t, script, pos + 1, now, matches);
        if !s.eof {
          MenuEndsOnQuit(s.table, script, s.pos, now, matches, r);
        }
      }
    }
  }

  /** `add_entry`: text that strips to nothing is dropped without asking;
      otherwise an answer other than `n`/`N` appends exactly one row holding
      the stripped text under a fresh id, and `n`/`N` changes nothing. */
  lemma AddEffect(t: Table, script: seq<string>, pos: nat, now: Clock)
    requires Valid(t)
    ensures pos >= |script| ==> AddStep(t, script, pos, now) == Run(t, pos, false)
    ensures pos < |script| && AllSpace(script[pos]) ==>
              AddStep(t, script, pos, now) == Run(t, pos + 1, false)
    ensures pos + 1 < |script| && !AllSpace(script[pos])
            && script[pos + 1] != "n" && script[pos + 1] != "N" ==>
              var u := Created(t, Strip(script[pos]), now(t.nextId));
              AddStep(t, script, pos, now) == Run(u, pos + 2, false)
              && Valid(u) && forall e :: e in t.rows ==> e.id != t.nextId
    ensures pos + 1 < |script| && !AllSpace(script[pos])
            && (script[pos + 1] == "n" || script[pos + 1] == "N") ==>
              AddStep(t, script, pos, now) == Run(t, pos + 2, false)
    ensures pos + 1 == |script| && !AllSpace(script[pos]) ==>
              AddStep(t, script, pos, now) == Run(t, pos + 1, true)
  {
    if pos < |script| {
      StripSpec(script[pos]);
    }
    if pos + 1 < |script| {
      SaveAnswer(script[pos + 1]);
      if !AllSpace(script[pos]) {
        CreatedValid(t, Strip(script[pos]), now(t.nextId));
      }
    }
  }

  /** `delete_entry`: one answer is read and the session goes on; only
      `y`/`Y` removes the entry, and then every row with another id stays, in
      order; any other answer changes nothing. */
  lemma DeleteEffect(t: Table, entry: Entry, script: seq<string>, pos: nat)
    requires Valid(t) && pos < |script|
    ensures script[pos] == "y" || script[pos] == "Y" ==>
              DeleteStep(t, entry, script, pos) == Run(Removed(t, entry.id), pos + 1, false)
    ensures script[pos] == "y" || script[pos] == "Y" ==>
              var u := DeleteStep(t, entry, script, pos).table;
              Valid(u) && u.nextId == t.nextId && IsSubseq(u.rows, t.rows)
              && forall e :: e in u.rows <==> e in t.rows && e.id != entry.id
    ensures script[pos] != "y" && script[pos] != "Y" ==>
              DeleteStep(t, entry, script, pos) == Run(t, pos + 1, false)
  {
    DeleteAnswer(script[pos]);
    RemovedEffect(t, entry.id);
  }

  /** One round of the view loop, on the entry shown first. */
  lemma BrowseRound(t: Table, listing: seq<Entry>, script: seq<string>, pos: nat)
    requires listing != [] && pos < |script|
    ensures Normalize(script[pos]) == "q" ==> Browse(t, listing, script, pos) == Run(t, pos + 1, false)
    ensures Normalize(script[pos]) == "d" ==>
              var d := DeleteStep(t, listing[0], script, pos + 1);
              Browse(t, listing, script, pos) == if d.eof then d else Browse(d.table, listing[1..], script, d.pos)
    ensures Normalize(script[pos]) != "q" && Normalize(script[pos]) != "d" ==>
              Browse(t, listing, script, pos) == Browse(t, listing[1..], script, pos + 1)
  {
  }

  /** An answer that is `q` or `Q` between whitespace stops the view at the
      entry shown: no later entry is shown and the table is unchanged. */
  lemma BrowseQuits(t: Table, listing: seq<Entry>, script: seq<string>, pos: nat, i: nat)
    requires listing != [] && pos < |script| && i < |script[pos]| && LowerChar(script[pos][i]) == 'q'
    requires AllSpace(script[pos][..i]) && AllSpace(script[pos][i + 1..])
    ensures Browse(t, listing, script, pos) == Run(t, pos + 1, false)
  {
    NormalizeIsKey(script[pos], 'q');
    BrowseRound(t, listing, script, pos);
  }

  /** An answer that is `d` or `D` between whitespace asks to delete the entry
      shown (the next line is the confirmation) and the view goes on with the
      next entry from the table that leaves, unless input ran out. */
  lemma BrowseDeletes(t: Table, listing: seq<Entry>, script: seq<string>, pos: nat, i: nat)
    requires listing != [] && pos < |script| && i < |script[pos]| && LowerChar(script[pos][i]) == 'd'
    requires AllSpace(script[pos][..i]) && AllSpace(script[pos][i + 1..])
    ensures var d := DeleteStep(t, listing[0], script, pos + 1);
            Browse(t, listing, script, pos) == if d.eof then d else Browse(d.table, listing[1..], script, d.pos)
  {
    NormalizeIsKey(script[pos], 'd');
    BrowseRound(t, listing, script, pos);
  }

  /** Any other answer, the empty one included, shows the next entry with the
      table unchanged. */
  lemma BrowseNext(t: Table, listing: seq<Entry>, script: seq<string>, pos: nat)
    requires listing != [] && pos < |script|
    requires forall i :: 0 <= i < |script[pos]| && AllSpace(script[pos][..i]) && AllSpace(script[pos][i + 1..])
                         ==> LowerChar(script[pos][i]) !in "qd"
    ensures Browse(t, listing, script, pos) == Browse(t, listing[1..], script, pos + 1)
  {
    NormalizeIsKey(script[pos], 'q');
    NormalizeIsKey(script[pos], 'd');
    BrowseRound(t, listing, script, pos);
  }

  /** The view loop reads at most two lines per listed entry (its own prompt
      and a deletion's), nothing at all for an empty listing, and it only
      removes rows: what is left is in order, the invariant holds and the id
      counter is untouched. */
  lemma {:induction false} BrowseEffect(t: Table, listing: seq<Entry>, script: seq<string>, pos: nat, r: Run)
    requires Valid(t) && r == Browse(t, listing, script, pos)
    ensures r.pos - pos <= 2 * |listing|
    ensures listing == [] ==> r == Run(t, pos, false)
    ensures Valid(r.table) && r.table.nextId == t.nextId
    ensures IsSubseq(r.table.rows, t.rows)
    decreases |listing|
  {
    if listing == [] || pos >= |script| {
      SubseqRefl(t.rows);
    } else {
      var action := Normalize(script[pos]);
      if action == "q" {
        SubseqRefl(t.rows);
      } else if action == "d" {
        var d := DeleteStep(t, listing[0], script, pos + 1);
        if d.eof {
          SubseqRefl(t.rows);
        } else {
          RemovedEffect(t, listing[0].id);
          BrowseEffect(d.table, listing[1..], script, d.pos, r);
          if DeleteConfirmed(script[pos + 1]) {
            SubseqTrans(r.table.rows, d.table.rows, t.rows);
          }
        }
      } else {
        BrowseEffect(t, listing[1..], script, pos + 1, r);
      }
    }
  }

  /** The view loop deletes only listed entries: a row whose id was not
      listed is still there afterwards. */
  lemma {:induction false} BrowseKeepsUnlisted(t: Table, listing: seq<Entry>, script: seq<string>, pos: nat, r: Run)
    requires r == Browse(t, listing, script, pos)
    ensures forall e :: e in t.rows && (forall k :: 0 <= k < |listing| ==> listing[k].id != e.id)
                        ==> e in r.table.rows
    decreases |listing|
  {
    if listing != [] && pos < |script| {
      var action := Normalize(script[pos]);
      if action == "d" {
        var d := DeleteStep(t, listing[0], script, pos + 1);
        if !d.eof {
          BrowseKeepsUnlisted(d.table, listing[1..], script, d.pos, r);
        }
      } else if action != "q" {
        BrowseKeepsUnlisted(t, listing[1..], script, pos + 1, r);
      }
    }
  }

  /** `q` at the first entry's prompt stops the view there: no later entry is
      shown and nothing changes. With no `d` among the answers, the view
      reads at most one line per listed entry and changes nothing. */
  lemma {:induction false} BrowseWithoutDelete(t: Table, listing: seq<Entry>, script: seq<string>, pos: nat, r: Run)
    requires forall i :: pos <= i < pos + |listing| && i < |script| ==> Normalize(script[i]) != "d"
    requires r == Browse(t, listing, script, pos)
    ensures listing != [] && pos < |script| && Normalize(script[pos]) == "q" ==> r == Run(t, pos + 1, false)
    ensures r.table == t && r.pos - pos <= |listing|
    decreases |listing|
  {
    if listing != [] && pos < |script| && Normalize(script[pos]) != "q" {
      BrowseWithoutDelete(t, listing[1..], script, pos + 1, r);
    }
  }

  /** Every action keeps the table invariant, and no action lowers the id counter. */
  lemma DispatchValid(cmd: Command, t: Table, script: seq<string>, pos: nat, now: Clock, matches: Matcher)
    requires Valid(t)
    ensures var s := DispatchStep(cmd, t, script, pos, now, matches);
            Valid(s.table) && s.table.nextId >= t.nextId
  {
    match cmd
    case AddCmd => AddEffect(t, script, pos, now);
    case ViewCmd =>
      var l := Listing(t.rows, None, matches);
      BrowseEffect(t, l, script, pos, Browse(t, l, script, pos));
    case SearchCmd =>
      if pos < |script| {
        var l := Listing(t.rows, Some(script[pos]), matches);
        BrowseEffect(t, l, script, pos + 1, Browse(t, l, script, pos + 1));
      }
  }

  /** A whole session keeps the table invariant: ids stay unique and are
      never handed out twice, and every stored content is non-empty text
      without surrounding whitespace. */
  lemma {:induction false} RunMenuValid(t: Table, script: seq<string>, pos: nat, now: Clock, matches: Matcher, r: Run)
    requires Valid(t) && pos <= |script| && r == RunMenu(t, script, pos, now, matches)
    ensures Valid(r.table) && r.table.nextId >= t.nextId
    decreases |script| - pos
  {
    if pos < |script| {
      var choice := Normalize(script[pos]);
      if choice != "q" {
        match Lookup(choice)
        case None =>
          RunMenuValid(t, script, pos + 1, now, matches, r);
        case Some(cmd) =>
          DispatchValid(cmd, t, script, pos + 1, now, matches);
          var s := DispatchStep(cmd, t, script, pos + 1, now, matches);
          if !s.eof {
            RunMenuValid(s.table, script, s.pos, now, matches, r);
          }
      }
    }
  }

  // ---------------------------------------------------------------------
  // The imperative session

  /** Standard input as the operator's script and how much of it is read. */
  class Console {
    const script: seq<string>
    var pos: nat

    constructor (lines: seq<string>)
      ensures script == lines && pos == 0
    {
      script := lines;
      pos := 0;
    }

    /** `input(prompt)`: the next line, or `None` where Python raises EOFError. */
    method Input() returns (line: Option<string>)
      modifies this
      ensures old(pos) >= |script| ==> line == None && pos == old(pos)
      ensures old(pos) < |script| ==> line == Some(script[old(pos)]) && pos == old(pos) + 1
    {
      if pos >= |script| {
        line := None;
      } else {
        line := Some(script[pos]);
        pos := pos + 1;
      }
    }

    /** `sys.stdin.read()`: the text up to end of input, empty at the end of the script. */
    method ReadAll() returns (text: string)
      modifies this
      ensures old(pos) >= |script| ==> text == "" && pos == old(pos)
      ensures old(pos) < |script| ==> text == script[old(pos)] && pos == old(pos) + 1
    {
      if pos >= |script| {
        text := "";
      } else {
        text := script[pos];
        pos := pos + 1;
      }
    }
  }

  method DeleteEntry(t: EntryTable, io: Console, entry: Entry) returns (eof: bool)
    modifies t, io
    ensures Run(t.Value(), io.pos, eof) == DeleteStep(old(t.Value()), entry, io.script, old(io.pos))
  {
    var answer := io.Input();
    if answer.None? {
      return true;
    }
    if DeleteConfirmed(answer.value) {
      t.DeleteInstance(entry.id);
    }
    return false;
  }

  method AddEntry(t: EntryTable, io: Console, now: Clock) returns (eof: bool)
    modifies t, io
    ensures Run(t.Value(), io.pos, eof) == AddStep(old(t.Value()), io.script, old(io.pos), now)
  {
    var blob := io.ReadAll();
    var data := Strip(blob);
    eof := false;
    if data != "" {
      var answer := io.Input();
      if answer.None? {
        eof := true;
      } else if SaveConfirmed(answer.value) {
        var saved := t.Create(data, now(t.nextId));
      }
    }
  }

  /** One round of the `for entry in entries` loop: the entry
      `listing[0]` is shown, one answer is read and acted on. `quit` is the
      `break` of answer `q`. */
  method ShowEntry(t: EntryTable, io: Console, ghost listing: seq<Entry>, entry: Entry) returns (quit: bool, eof: bool)
    requires listing != [] && listing[0] == entry
    modifies t, io
    ensures quit || eof ==> Browse(old(t.Value()), listing, io.script, old(io.pos)) == Run(t.Value(), io.pos, eof)
    ensures !quit && !eof ==>
              Browse(old(t.Value()), listing, io.script, old(io.pos))
              == Browse(t.Value(), listing[1..], io.script, io.pos)
  {
    ghost var shown := t.Value();
    var answer := io.Input();
    if answer.None? {
      return false, true;
    }
    BrowseRound(shown, listing, io.script, io.pos - 1);
    var next := Normalize(answer.value);
    quit, eof := false, false;
    if next == "q" {
      quit := true;
    } else if next == "d" {
      eof := DeleteEntry(t, io, entry);
    }
  }

  method ViewEntries(t: EntryTable, io: Console, query: Option<string>, matches: Matcher) returns (eof: bool)
    modifies t, io
    ensures Run(t.Value(), io.pos, eof) == ViewStep(old(t.Value()), query, io.script, old(io.pos), matches)
  {
    var entries := t.Select(query, matches);
    ghost var whole := Browse(t.Value(), entries, io.script, io.pos);
    var i := 0;
    while i < |entries|
      invariant 0 <= i <= |entries|
      invariant Browse(t.Value(), entries[i..], io.script, io.pos) == whole
    {
      var quit;
      quit, eof := ShowEntry(t, io, entries[i..], entries[i]);
      if eof {
        return;
      }
      if quit {
        break;
      }
      assert entries[i..][1..] == entries[i + 1..];
      i := i + 1;
    }
    return false;
  }

  method SearchEntries(t: EntryTable, io: Console, matches: Matcher) returns (eof: bool)
    modifies t, io
    ensures old(io.pos) >= |io.script| ==> eof && t.Value() == old(t.Value()) && io.pos == old(io.pos)
    ensures old(io.pos) < |io.script| ==>
              Run(t.Value(), io.pos, eof)
              == ViewStep(old(t.Value()), Some(io.script[old(io.pos)]), io.script, old(io.pos) + 1, matches)
  {
    var query := io.Input();
    if query.None? {
      return true;
    }
    eof := ViewEntries(t, io, query, matches);
  }

  /** `menu[choice]()`. */
  method Dispatch(cmd: Command, t: EntryTable, io: Console, now: Clock, matches: Matcher) returns (eof: bool)
    modifies t, io
    ensures Run(t.Value(), io.pos, eof) == DispatchStep(cmd, old(t.Value()), io.script, old(io.pos), now, matches)
  {
    match cmd
    case AddCmd => eof := AddEntry(t, io, now);
    case ViewCmd => eof := ViewEntries(t, io, None, matches);
    case SearchCmd => eof := SearchEntries(t, io, matches);
  }

  /** One round of `menu_loop`: the choice is read, normalised and, when
      it is a menu key, its action is run. `choice` is the normalised line. */
  method MenuTurn(t: EntryTable, io: Console, now: Clock, matches: Matcher) returns (choice: string, eof: bool)
    requires io.pos <= |io.script|
    modifies t, io
    ensures !eof ==> old(io.pos) < io.pos <= |io.script|
    ensures eof ==> Run(t.Value(), io.pos, true) == RunMenu(old(t.Value()), io.script, old(io.pos), now, matches)
    ensures !eof && choice == "q" ==>
              Run(t.Value(), io.pos, false) == RunMenu(old(t.Value()), io.script, old(io.pos), now, matches)
    ensures !eof && choice != "q" ==>
              RunMenu(t.Value(), io.script, io.pos, now, matches)
              == RunMenu(old(t.Value()), io.script, old(io.pos), now, matches)
  {
    ghost var before := t.Value();
    var line := io.Input();
    if line.None? {
      return "", true;
    }
    choice := Normalize(line.value);
    var cmd := Lookup(choice);
    MenuRound(before, io.script, io.pos - 1, now, matches);
    eof := false;
    if cmd.Some? {
      MenuDispatch(before, io.script, io.pos - 1, now, matches);
      eof := Dispatch(cmd.value, t, io, now, matches);
    }
  }

  method MenuLoop(t: EntryTable, io: Console, now: Clock, matches: Matcher) returns (eof: bool)
    requires io.pos <= |io.script|
    modifies t, io
    ensures Run(t.Value(), io.pos, eof) == RunMenu(old(t.Value()), io.script, old(io.pos), now, matches)
    ensures Valid(old(t.Value())) ==> Valid(t.Value())
  {
    if Valid(t.Value()) {
      RunMenuValid(t.Value(), io.script, io.pos, now, matches, RunMenu(t.Value(), io.script, io.pos, now, matches));
    }
    var choice := "";
    while choice != "q"
      invariant io.pos <= |io.script|
      invariant choice != "q" ==>
                  RunMenu(t.Value(), io.script, io.pos, now, matches)
                  == RunMenu(old(t.Value()), io.script, old(io.pos), now, matches)
      invariant choice == "q" ==>
                  Run(t.Value(), io.pos, false) == RunMenu(old(t.Value()), io.script, old(io.pos), now, matches)
      decreases |io.script| - io.pos
    {
      choice, eof := MenuTurn(t, io, now, matches);
      if eof {
        return;
      }
    }
    return false;
  }
}
