/** The log of seen fingerprints: an insertion-ordered map kept in a table file. */
module StoreModel {
  import opened SnapResult
  import opened TextFiles
  import opened CsvModel

  const COLUMN_NAMES := ["output", "creation_date", "last_date"]

  /** A fingerprint, and the clock as read once or twice. */
  datatype Sighting = Sighting(output: string, date: string, again: string)

  datatype Entry = Entry(output: string, created: string, last: string)

  // ---------- the store as a map in insertion order ----------

  function Outputs(store: seq<Entry>): seq<string> {
    seq(|store|, i requires 0 <= i < |store| => store[i].output)
  }

  /** The entry of an output, or -1. */
  function Find(store: seq<Entry>, output: string): (p: int)
    ensures -1 <= p < |store|
    ensures p >= 0 ==> store[p].output == output
    ensures forall k :: 0 <= k < (if p == -1 then |store| else p) ==> store[k].output != output
  {
    assert forall k :: 0 <= k < |store| ==> Outputs(store)[k] == store[k].output;
    Position(Outputs(store), output)
  }

  function Sight(store: seq<Entry>, s: Sighting): seq<Entry> {
    var p := Find(store, s.output);
    if p == -1 then store + [Entry(s.output, s.date, s.again)]
    else store[p := Entry(s.output, store[p].created, s.date)]
  }

  function Final(sightings: seq<Sighting>): seq<Entry> {
    if sightings == [] then [] else Sight(Final(sightings[..|sightings| - 1]), sightings[|sightings| - 1])
  }

  predicate Plain(s: string) { OneCell(s) && OneLine(s) }

  predicate Clean(s: string) { s != "" && Plain(s) }

  /** The output may be empty, the dates may not. */
  predicate SightingOk(s: Sighting) { Plain(s.output) && Clean(s.date) && Clean(s.again) }

  predicate EntryOk(e: Entry) { Plain(e.output) && Clean(e.created) && Clean(e.last) }

  predicate EntriesOk(store: seq<Entry>) { forall e :: e in store ==> EntryOk(e) }

  /** Only the first output can be empty. */
  predicate StoreOk(store: seq<Entry>) {
    EntriesOk(store) && forall k :: 1 <= k < |store| ==> store[k].output != ""
  }

  // ---------- the store as text ----------

  function Cells(e: Entry): seq<string> { [e.output, e.created, e.last] }

  function Rows(store: seq<Entry>): (r: seq<string>)
    ensures |r| == |store|
  {
    if store == [] then [] else [RowLine(Cells(store[0]))] + Rows(store[1..])
  }

  /** What is read as the key of an entry: an empty output is read as the rest of the row. */
  function Key(e: Entry): string { if e.output == "" then RowLine(Cells(e)) else e.output }

  function Keys(store: seq<Entry>): (keys: seq<string>)
    ensures |keys| == |store|
  {
    seq(|store|, i requires 0 <= i < |store| => Key(store[i]))
  }

  function HeaderLine(): string { RowLine(COLUMN_NAMES) }

  function FileOf(store: seq<Entry>): string { Unlines([HeaderLine()] + Rows(store)) }

  /** One round of the main loop on the text of the table file: the new text, and whether a notification is sent. */
  function StoreStep(text: string, s: Sighting): Result<(string, bool)> {
    var lines := Lines(text);
    var keys :- KeysWithValue(lines, 3, 0, ColumnNumber(lines, 3, "output"), s.output);
    if keys == [] then
      var added :- PushedRow(text, 3, 0, [s.output, s.date, s.again]);
      Ok((added, true))
    else
      var row :- KeyPosition(lines, 3, 0, s.output);
      var created :- CellAt(lines, 3, row, ColumnNumber(lines, 3, "creation_date"));
      var replaced :- ReplacedRow(text, 3, 0, row, [s.output, created, s.date]);
      Ok((replaced, false))
  }

  /** A whole run: the final text and the number of notifications. */
  function StoreRun(text: string, sightings: seq<Sighting>): Result<(string, nat)> {
    if sightings == [] then Ok((text, 0))
    else
      var before :- StoreRun(text, sightings[..|sightings| - 1]);
      var step :- StoreStep(before.0, sightings[|sightings| - 1]);
      Ok((step.0, before.1 + if step.1 then 1 else 0))
  }

  // ---------- rows ----------

  lemma RowText(e: Entry)
    requires EntryOk(e)
    ensures RowLine(Cells(e)) == e.output + ";" + (e.created + ";" + (e.last + ";" + ""))
    ensures RowLine(Cells(e)) != "" && OneLine(RowLine(Cells(e)))
    ensures Cell(RowLine(Cells(e)), 0) == Key(e) && Cell(RowLine(Cells(e)), 1) == e.created
  {
    hide Cell, OneLine;
    var cells := Cells(e);
    CellReadBack(cells, 0);
    CellReadBack(cells, 1);
    assert cells[0..] == cells;
    assert cells[1..] == [e.created, e.last] && cells[1..][1..] == [e.last] && [e.last][1..] == [];
    assert RowLine([e.last]) == e.last + ";" + "";
    assert RowLine([e.created, e.last]) == e.created + ";" + (e.last + ";" + "");
    Join(e.last, "");
    Join(e.created, e.last + ";" + "");
    Join(e.output, e.created + ";" + (e.last + ";" + ""));
    assert OneLine("") by { EmptyLine(); }
  }

  lemma EmptyLine()
    ensures OneLine("")
  {
  }

  lemma Join(v: string, rest: string)
    ensures OneLine(v) && OneLine(rest) ==> OneLine(v + ";" + rest)
  {
  }

  lemma {:induction false} RowsAre(store: seq<Entry>)
    requires EntriesOk(store)
    ensures AllOneLine(Rows(store)) && forall k :: 0 <= k < |store| ==> Rows(store)[k] != ""
  {
    hide RowLine, OneLine, EntryOk;
    if store != [] {
      RowText(store[0]);
      RowsAre(store[1..]);
    }
  }

  lemma {:induction false} RowsFromIsDrop(lines: seq<string>, i: nat)
    requires i <= |lines| && forall k :: i <= k < |lines| ==> lines[k] != ""
    ensures RowsFrom(lines, i) == lines[i..]
    decreases |lines| - i
  {
    if i < |lines| {
      RowsFromIsDrop(lines, i + 1);
    }
  }

  lemma FileLines(store: seq<Entry>)
    requires EntriesOk(store)
    ensures Lines(FileOf(store)) == [HeaderLine()] + Rows(store)
    ensures RowsFrom(Lines(FileOf(store)), 1) == Rows(store)
    ensures AllOneLine([HeaderLine()] + Rows(store)) && Complete(FileOf(store))
  {
    hide Lines, Unlines, Rows, HeaderLine, OneLine, Complete, RowsFrom, EntriesOk;
    var lines := [HeaderLine()] + Rows(store);
    RowsAre(store);
    HeaderIsOneLine();
    LinesOfUnlines(lines);
    UnlinesOfLines(Unlines(lines));
    CompleteOrNot(Unlines(lines));
    assert forall k :: 1 <= k < |lines| ==> lines[k] == Rows(store)[k - 1];
    RowsFromIsDrop(lines, 1);
    assert lines[1..] == Rows(store);
  }

  lemma CompleteOrNot(text: string)
    ensures text != text + "\n"
  {
    assert |text| != |text + "\n"|;
  }

  lemma HeaderIsOneLine()
    ensures OneLine(HeaderLine())
  {
  }

  lemma NamesAreClean()
    ensures EntryOk(Entry("output", "creation_date", "last_date"))
  {
  }

  lemma Columns(lines: seq<string>)
    requires lines != [] && lines[0] == HeaderLine()
    ensures ColumnNumber(lines, 3, "output") == 0 && ColumnNumber(lines, 3, "creation_date") == 1
  {
    hide RowLine, CellEnd, NextCells;
    var h := Entry("output", "creation_date", "last_date");
    assert Cells(h) == COLUMN_NAMES;
    NamesAreClean();
    RowText(h);
    var rest := "last_date" + ";" + "";
    CellEndConcat("output", "creation_date" + ";" + rest);
    CellEndConcat("creation_date", rest);
    ColumnStep(lines[0], 3, "output");
    ColumnStep(lines[0], 3, "creation_date");
    ColumnStep(NextCells(lines[0]), 2, "creation_date");
    assert |"output"| != |"creation_date"|;
  }

  lemma ColumnStep(header: string, left: nat, name: string)
    requires left > 0
    ensures ColumnFrom(header, left, name) ==
            if header[..CellEnd(header)] == name then 0
            else
              var p := ColumnFrom(NextCells(header), left - 1, name);
              if p == -1 then -1 else p + 1
  {
  }

  // ---------- keys ----------

  lemma {:induction false} AllKeys(store: seq<Entry>)
    requires EntriesOk(store)
    ensures KeysOf(Rows(store), 0, 0, "") == Keys(store)
  {
    hide Cell, RowLine, EntryOk, Key;
    if store != [] {
      RowText(store[0]);
      AllKeys(store[1..]);
      assert Keys(store) == [Key(store[0])] + Keys(store[1..]);
    }
  }

  lemma {:induction false} KeysFound(store: seq<Entry>, output: string)
    requires EntriesOk(store) && output != ""
    ensures KeysOf(Rows(store), 0, 0, output) == [] <==> Position(Keys(store), output) == -1
  {
    hide Cell, RowLine, EntryOk, Key;
    if store != [] {
      RowText(store[0]);
      KeysFound(store[1..], output);
      assert Keys(store)[1..] == Keys(store[1..]);
    }
  }

  /** The output is the text of the row whose own output is empty. */
  predicate ReadAsRow(store: seq<Entry>, output: string) {
    store != [] && store[0].output == "" && output == RowLine(Cells(store[0]))
  }

  lemma RowIsNotPlain(e: Entry)
    ensures ';' in RowLine(Cells(e))
  {
    assert RowLine(Cells(e))[|e.output|] == ';';
  }

  /** No key is empty, and another output is a key exactly where it is an output, but for the text of the row of an
      empty output. */
  lemma KeyIsOutput(store: seq<Entry>, output: string)
    requires StoreOk(store)
    ensures output == "" ==> Position(Keys(store), output) == -1
    ensures output != "" && !ReadAsRow(store, output) ==> Position(Keys(store), output) == Find(store, output)
    ensures ReadAsRow(store, output) ==> Position(Keys(store), output) == 0 && Find(store, output) == -1
  {
    hide RowLine, Position, Find;
    forall k | 0 <= k < |store|
      ensures Keys(store)[k] != ""
      ensures store[k].output != "" ==> Keys(store)[k] == store[k].output
      ensures store[k].output == "" ==> k == 0 && Keys(store)[k] == RowLine(Cells(store[0]))
      ensures OneCell(store[k].output)
    {
      assert EntryOk(store[k]);
      RowIsNotPlain(store[k]);
    }
    var p, q := Position(Keys(store), output), Find(store, output);
    if output != "" && !ReadAsRow(store, output) {
      assert forall k :: 0 <= k < |store| ==> (Keys(store)[k] == output <==> store[k].output == output);
      assert p != -1 ==> Keys(store)[p] == output;
    } else if ReadAsRow(store, output) {
      RowIsNotPlain(store[0]);
      assert Keys(store)[0] == output;
    }
  }

  lemma {:induction false} RowsAppend(store: seq<Entry>, e: Entry)
    ensures Rows(store + [e]) == Rows(store) + [RowLine(Cells(e))]
  {
    hide RowLine;
    if store == [] {
      assert store + [e] == [e] && [e][1..] == [];
    } else {
      assert (store + [e])[1..] == store[1..] + [e];
      RowsAppend(store[1..], e);
    }
  }

  lemma {:induction false} RowsIndex(store: seq<Entry>, k: nat)
    requires k < |store|
    ensures Rows(store)[k] == RowLine(Cells(store[k]))
  {
    hide RowLine;
    if k > 0 {
      RowsIndex(store[1..], k - 1);
    }
  }

  lemma {:induction false} RowsUpdate(store: seq<Entry>, k: nat, e: Entry)
    requires k < |store|
    ensures Rows(store[k := e]) == Rows(store)[k := RowLine(Cells(e))]
  {
    hide RowLine;
    if k > 0 {
      assert store[k := e][1..] == store[1..][k - 1 := e];
      RowsUpdate(store[1..], k - 1, e);
    } else {
      assert store[0 := e][1..] == store[1..];
    }
  }

  // ---------- one round ----------

  lemma FileAppend(store: seq<Entry>, e: Entry)
    ensures AddedLine(FileOf(store), RowLine(Cells(e))) == FileOf(store + [e])
  {
    hide Unlines, Rows, RowLine, HeaderLine;
    RowsAppend(store, e);
    assert [HeaderLine()] + Rows(store + [e]) == [HeaderLine()] + Rows(store) + [RowLine(Cells(e))];
    AppendLine([HeaderLine()] + Rows(store), RowLine(Cells(e)));
  }

  lemma FileUpdate(store: seq<Entry>, k: nat, e: Entry)
    requires EntriesOk(store) && k < |store|
    ensures k + 1 < |Lines(FileOf(store))| && LineAt(Lines(FileOf(store)), k + 1) != ""
    ensures ReplacedLine(FileOf(store), k + 1, RowLine(Cells(e))) == FileOf(store[k := e])
  {
    hide Lines, Unlines, Rows, RowLine, HeaderLine, Complete, Terminated, Cells, ReplacedLine, Clean;
    var lines, line := [HeaderLine()] + Rows(store), RowLine(Cells(e));
    FileLines(store);
    RowsAre(store);
    RowsUpdate(store, k, e);
    assert lines[k + 1] == Rows(store)[k];
    assert [HeaderLine()] + Rows(store[k := e]) == lines[k + 1 := line];
    TerminatedLines(FileOf(store));
    ReplacedText(FileOf(store), k + 1, line);
  }

  lemma ReplacedText(text: string, n: nat, line: string)
    requires Complete(text) && n < |Lines(text)|
    ensures ReplacedLine(text, n, line) == Unlines(Lines(text)[n := line])
  {
    hide Lines, Unlines, Terminated, Complete;
    TerminatedLines(text);
    var lines := Lines(text);
    assert lines[n := line] == lines[..n] + [line] + lines[n + 1..];
    UnlinesConcat(lines[..n] + [line], lines[n + 1..]);
    AppendLine(lines[..n], line);
  }

  lemma SightOk(store: seq<Entry>, s: Sighting)
    requires StoreOk(store) && SightingOk(s) && (s.output != "" || store == [])
    ensures StoreOk(Sight(store, s))
  {
    hide Plain, Find;
    var p := Find(store, s.output);
    if p != -1 {
      assert EntryOk(store[p]);
    }
  }

  /** What one round reads of the table, whatever the output. */
  lemma RoundReads(store: seq<Entry>, output: string)
    requires StoreOk(store)
    ensures var lines, p := Lines(FileOf(store)), Position(Keys(store), output);
            && ColumnNumber(lines, 3, "output") == 0
            && KeysWithValue(lines, 3, 0, 0, output).Ok?
            && (KeysWithValue(lines, 3, 0, 0, output).value == [] <==> if output == "" then store == [] else p == -1)
            && KeyPosition(lines, 3, 0, output) == Ok(p)
            && (p != -1 ==> CellAt(lines, 3, p, ColumnNumber(lines, 3, "creation_date")) == Ok(store[p].created))
  {
    hide Lines, FileOf, Rows, RowLine, HeaderLine, ColumnNumber, Cell, Plain, RowsFrom, KeysOf, Cells, Key, Position;
    FileLines(store);
    var lines := Lines(FileOf(store));
    Columns(lines);
    AllKeys(store);
    if output != "" {
      KeysFound(store, output);
    }
    assert Keys(store) == [] <==> store == [];
    var p := Position(Keys(store), output);
    if p != -1 {
      RowsIndex(store, p);
      assert lines[p + 1] == Rows(store)[p];
      assert EntryOk(store[p]);
      RowText(store[p]);
    }
  }

  lemma StepAppends(store: seq<Entry>, s: Sighting)
    requires StoreOk(store) && Position(Keys(store), s.output) == -1 && (s.output != "" || store == [])
    ensures StoreStep(FileOf(store), s) == Ok((FileOf(store + [Entry(s.output, s.date, s.again)]), true))
  {
    hide Lines, FileOf, RowLine, ColumnNumber, KeysWithValue, KeyPosition, AddedLine, StoreOk, Keys, Position;
    RoundReads(store, s.output);
    FileAppend(store, Entry(s.output, s.date, s.again));
  }

  lemma StepReplaces(store: seq<Entry>, s: Sighting, p: nat)
    requires StoreOk(store) && Position(Keys(store), s.output) == p < |store| && s.output != ""
    ensures StoreStep(FileOf(store), s) == Ok((FileOf(store[p := Entry(s.output, store[p].created, s.date)]), false))
  {
    hide Lines, FileOf, RowLine, ColumnNumber, KeysWithValue, KeyPosition, CellAt, ReplacedLine, EntriesOk, Keys,
         Position;
    RoundReads(store, s.output);
    FileUpdate(store, p, Entry(s.output, store[p].created, s.date));
  }

  lemma StepFails(store: seq<Entry>, s: Sighting)
    requires StoreOk(store) && Position(Keys(store), s.output) == -1 && s.output == "" && store != []
    ensures StoreStep(FileOf(store), s).Err?
  {
    hide Lines, FileOf, RowLine, ColumnNumber, KeysWithValue, KeyPosition, StoreOk, Keys, Position;
    RoundReads(store, s.output);
  }

  /** What one round does, by the row in which the output is read. */
  lemma StepByKey(store: seq<Entry>, s: Sighting)
    requires StoreOk(store)
    ensures var step, p := StoreStep(FileOf(store), s), Position(Keys(store), s.output);
            if p != -1 then step == Ok((FileOf(store[p := Entry(s.output, store[p].created, s.date)]), false))
            else if s.output == "" && store != [] then step.Err?
            else step == Ok((FileOf(store + [Entry(s.output, s.date, s.again)]), true))
  {
    hide FileOf, StoreStep, StoreOk, Keys, Position, ReadAsRow, Find;
    KeyIsOutput(store, s.output);
    var p := Position(Keys(store), s.output);
    if p != -1 {
      StepReplaces(store, s, p);
    } else if s.output == "" && store != [] {
      StepFails(store, s);
    } else {
      StepAppends(store, s);
    }
  }

  /** A round on the file of a store gives the file of the updated store, raises no error, and notifies exactly if
      the output is new: always, but for an empty output when the store has entries, for which there is an error, and
      for the text of a row with an empty output, which is taken for the key of that row. */
  lemma StepRefinesExactly(store: seq<Entry>, s: Sighting)
    requires StoreOk(store)
    ensures var step := StoreStep(FileOf(store), s);
            && (step == Ok((FileOf(Sight(store, s)), Find(store, s.output) == -1)) <==>
                  (s.output != "" || store == []) && !ReadAsRow(store, s.output))
            && (step.Err? <==> s.output == "" && store != [])
            && (ReadAsRow(store, s.output) ==>
                  step == Ok((FileOf(store[0 := Entry(s.output, store[0].created, s.date)]), false)))
  {
    hide FileOf, StoreStep, Find, StoreOk, Keys, Position, ReadAsRow;
    StepByKey(store, s);
    KeyIsOutput(store, s.output);
    RowIsNotEmpty(store);
  }

  lemma RowIsNotEmpty(store: seq<Entry>)
    ensures !ReadAsRow(store, "")
  {
    if store != [] {
      RowIsNotPlain(store[0]);
    }
  }

  // ---------- whole runs ----------

  predicate SightingsOk(sightings: seq<Sighting>) { forall s :: s in sightings ==> SightingOk(s) }

  /** No output but the very first is empty. */
  predicate OnlyFirstEmpty(sightings: seq<Sighting>) {
    forall i :: 1 <= i < |sightings| ==> sightings[i].output != ""
  }

  /** Whole runs over a new table: such a run ends without an error, with the file of the final store, and has sent one
      notification for each of its entries, exactly if no output after the first one is empty. */
  lemma {:induction false} RunRefinesExactly(sightings: seq<Sighting>)
    requires SightingsOk(sightings)
    ensures StoreRun(FileOf([]), sightings) == Ok((FileOf(Final(sightings)), |Final(sightings)|)) <==>
            OnlyFirstEmpty(sightings)
    ensures if OnlyFirstEmpty(sightings) then StoreOk(Final(sightings)) && (Final(sightings) == [] <==> sightings == [])
            else StoreRun(FileOf([]), sightings).Err?
  {
    hide FileOf, StoreStep, Find, SightingOk, EntryOk, RowLine, Cells;
    if sightings != [] {
      var n := |sightings| - 1;
      var before, s := sightings[..n], sightings[n];
      RunRefinesExactly(before);
      assert OnlyFirstEmpty(sightings) <==> OnlyFirstEmpty(before) && (s.output != "" || before == []);
      if OnlyFirstEmpty(before) {
        StepRefinesExactly(Final(before), s);
        PlainIsNoRow(Final(before), s);
        if OnlyFirstEmpty(sightings) {
          SightOk(Final(before), s);
        }
      }
    }
  }

  lemma PlainIsNoRow(store: seq<Entry>, s: Sighting)
    requires SightingOk(s)
    ensures !ReadAsRow(store, s.output)
  {
    if store != [] {
      RowIsNotPlain(store[0]);
    }
  }

  /** One more sighting, whatever its output and dates, after a run that has refined the store. */
  lemma LastRefinesExactly(sightings: seq<Sighting>, s: Sighting)
    requires SightingsOk(sightings) && OnlyFirstEmpty(sightings)
    ensures var store, final := Final(sightings), Final(sightings + [s]);
            StoreRun(FileOf([]), sightings + [s]) == Ok((FileOf(final), |final|)) <==>
            (s.output != "" || sightings == []) && !ReadAsRow(store, s.output)
  {
    hide FileOf, StoreStep, StoreRun, Final, Find, StoreOk, ReadAsRow, SightingsOk, OnlyFirstEmpty, Sight;
    RunRefinesExactly(sightings);
    StepRefinesExactly(Final(sightings), s);
    LastStep(sightings, s);
  }

  lemma LastStep(sightings: seq<Sighting>, s: Sighting)
    ensures Final(sightings + [s]) == Sight(Final(sightings), s)
    ensures |Final(sightings + [s])| == |Final(sightings)| + if Find(Final(sightings), s.output) == -1 then 1 else 0
    ensures StoreRun(FileOf([]), sightings + [s]) ==
            var before :- StoreRun(FileOf([]), sightings);
            var step :- StoreStep(before.0, s);
            Ok((step.0, before.1 + if step.1 then 1 else 0))
  {
    hide FileOf, StoreStep, Find;
    assert (sightings + [s])[..|sightings + [s]| - 1] == sightings;
  }

  /** The first sighting of an output, or -1. */
  function First(sightings: seq<Sighting>, output: string): (p: int)
    ensures -1 <= p < |sightings|
    ensures p >= 0 ==> sightings[p].output == output
    ensures forall k :: 0 <= k < (if p == -1 then |sightings| else p) ==> sightings[k].output != output
  {
    var outputs := seq(|sightings|, i requires 0 <= i < |sightings| => sightings[i].output);
    assert forall k :: 0 <= k < |sightings| ==> outputs[k] == sightings[k].output;
    Position(outputs, output)
  }

  /** The entry says when its output was seen first and last. */
  ghost predicate Dated(sightings: seq<Sighting>, e: Entry) {
    var first := First(sightings, e.output);
    && first >= 0 && e.created == sightings[first].date
    && exists last :: first <= last < |sightings| && sightings[last].output == e.output
         && (forall k :: last < k < |sightings| ==> sightings[k].output != e.output)
         && e.last == if last == first then sightings[last].again else sightings[last].date
  }

  /** The store holds one dated entry for each output seen, in the order of first sight. */
  ghost predicate Logs(sightings: seq<Sighting>, store: seq<Entry>) {
    && (forall k :: 0 <= k < |store| ==> Dated(sightings, store[k]))
    && (forall j, k :: 0 <= j < k < |store| ==>
          First(sightings, store[j].output) < First(sightings, store[k].output))
    && (forall i :: 0 <= i < |sightings| ==> exists k :: 0 <= k < |store| && store[k].output == sightings[i].output)
  }

  lemma FirstAppend(before: seq<Sighting>, s: Sighting, output: string)
    ensures First(before + [s], output) ==
            if First(before, output) >= 0 then First(before, output)
            else if s.output == output then |before| else -1
  {
    hide First;
    var all := before + [s];
    var p := First(all, output);
    assert forall k :: 0 <= k < |before| ==> all[k] == before[k];
    assert all[|before|] == s;
    if First(before, output) >= 0 {
      assert all[First(before, output)].output == output;
    }
  }

  lemma DatedStays(before: seq<Sighting>, s: Sighting, e: Entry)
    requires Dated(before, e) && s.output != e.output
    ensures Dated(before + [s], e)
  {
    hide First;
    FirstAppend(before, s, e.output);
    var first := First(before, e.output);
    var last :| first <= last < |before| && before[last].output == e.output
      && (forall k :: last < k < |before| ==> before[k].output != e.output)
      && e.last == if last == first then before[last].again else before[last].date;
    var all := before + [s];
    assert all[last] == before[last];
    assert forall k :: last < k < |all| ==> all[k].output != e.output;
  }

  lemma DatedAgain(before: seq<Sighting>, s: Sighting, e: Entry)
    requires Dated(before, e) && s.output == e.output
    ensures Dated(before + [s], Entry(e.output, e.created, s.date))
  {
    hide First;
    FirstAppend(before, s, e.output);
    assert (before + [s])[|before|] == s;
  }

  lemma DatedNew(before: seq<Sighting>, s: Sighting)
    requires First(before, s.output) == -1
    ensures Dated(before + [s], Entry(s.output, s.date, s.again))
  {
    hide First;
    FirstAppend(before, s, s.output);
    assert (before + [s])[|before|] == s;
  }

  lemma OnlyFound(before: seq<Sighting>, store: seq<Entry>, k: nat, output: string)
    requires Logs(before, store) && k < |store| && k != Find(store, output)
    ensures store[k].output != output
  {
    hide First, Dated;
    var p := Find(store, output);
    if p != -1 && p < k {
      assert First(before, store[p].output) < First(before, store[k].output);
    }
  }

  lemma NewIsUnseen(before: seq<Sighting>, store: seq<Entry>, output: string)
    requires Logs(before, store) && Find(store, output) == -1
    ensures First(before, output) == -1
  {
    hide Dated;
  }

  lemma SightDates(before: seq<Sighting>, store: seq<Entry>, s: Sighting, k: nat)
    requires Logs(before, store) && k < |Sight(store, s)|
    ensures Dated(before + [s], Sight(store, s)[k])
  {
    hide First, Find, Dated;
    var p := Find(store, s.output);
    if k == p {
      DatedAgain(before, s, store[k]);
    } else if k < |store| {
      OnlyFound(before, store, k, s.output);
      DatedStays(before, s, store[k]);
    } else {
      NewIsUnseen(before, store, s.output);
      DatedNew(before, s);
    }
  }

  lemma SightOutputs(store: seq<Entry>, s: Sighting)
    ensures var after := Sight(store, s);
            && |store| <= |after| <= |store| + 1
            && (forall k :: 0 <= k < |store| ==> after[k].output == store[k].output)
            && (|after| > |store| ==> after[|store|].output == s.output && Find(store, s.output) == -1)
            && exists k :: 0 <= k < |after| && after[k].output == s.output
  {
  }

  lemma SightLogs(before: seq<Sighting>, store: seq<Entry>, s: Sighting)
    requires Logs(before, store)
    ensures Logs(before + [s], Sight(store, s))
  {
    hide First, Find, Dated, Sight;
    var all, after := before + [s], Sight(store, s);
    SightOutputs(store, s);
    forall k | 0 <= k < |after| ensures Dated(all, after[k]) {
      SightDates(before, store, s, k);
    }
    forall j, k | 0 <= j < k < |after| ensures First(all, after[j].output) < First(all, after[k].output) {
      SightOrder(before, store, s, j, k);
    }
    forall i | 0 <= i < |all| ensures exists k :: 0 <= k < |after| && after[k].output == all[i].output {
      if i < |before| {
        var k :| 0 <= k < |store| && store[k].output == before[i].output;
        assert after[k].output == all[i].output;
      }
    }
  }

  lemma SightOrder(before: seq<Sighting>, store: seq<Entry>, s: Sighting, j: nat, k: nat)
    requires Logs(before, store) && j < k < |Sight(store, s)|
    ensures First(before + [s], Sight(store, s)[j].output) < First(before + [s], Sight(store, s)[k].output)
  {
    hide First, Find, Sight;
    SightOutputs(store, s);
    var after := Sight(store, s);
    assert Dated(before, store[j]);
    FirstAppend(before, s, after[j].output);
    FirstAppend(before, s, after[k].output);
    if k == |store| {
      NewIsUnseen(before, store, s.output);
    } else {
      assert Dated(before, store[k]);
    }
  }

  /** The final store of a run has one entry for each output seen, in first-seen order, with its first and last
      dates. */
  lemma {:induction false} FinalLogs(sightings: seq<Sighting>)
    ensures Logs(sightings, Final(sightings))
  {
    hide First, Find, Dated, Sight;
    if sightings != [] {
      var before, s := sightings[..|sightings| - 1], sightings[|sightings| - 1];
      FinalLogs(before);
      SightLogs(before, Final(before), s);
      assert before + [s] == sightings;
    }
  }

  /** The table starts as the file of the empty store. */
  lemma NewTable()
    ensures AddedLine("", RowLine(COLUMN_NAMES)) == FileOf([])
  {
    hide RowLine;
    UnlinesOne(HeaderLine());
    assert [HeaderLine()] + [] == [HeaderLine()];
    assert "" + HeaderLine() + "\n" == HeaderLine() + "\n";
  }

  // ---------- the file in letters ----------

  /** The header, and what one more entry adds to the file. */
  lemma FileInLetters(store: seq<Entry>, e: Entry)
    ensures FileOf([]) == "output;creation_date;last_date;\n"
    ensures FileOf(store + [e]) == FileOf(store) + (e.output + ";" + e.created + ";" + e.last + ";\n")
  {
    assert Rows([]) == [] && HeaderLine() == "output;creation_date;last_date;" by { HeaderInLetters(); }
    assert Unlines(["output;creation_date;last_date;"] + []) == "output;creation_date;last_date;" + "\n" + "" by {
      UnlinesCons("output;creation_date;last_date;", []);
    }
    RowsPush(store, e);
    RowInLetters(e);
    hide Unlines, Rows, HeaderLine, RowLine, Cells;
    var row := RowLine(Cells(e));
    assert [HeaderLine()] + (Rows(store) + [row]) == [HeaderLine()] + Rows(store) + [row];
    UnlinesConcat([HeaderLine()] + Rows(store), [row]);
    assert [row] + [] == [row];
    UnlinesCons(row, []);
    assert row + "\n" + "" == e.output + ";" + e.created + ";" + e.last + ";\n";
  }

  lemma HeaderInLetters()
    ensures HeaderLine() == "output;creation_date;last_date;"
  {
    assert COLUMN_NAMES[1..] == ["creation_date", "last_date"] && COLUMN_NAMES[1..][1..] == ["last_date"];
    assert ["last_date"][1..] == [];
  }

  lemma RowInLetters(e: Entry)
    ensures RowLine(Cells(e)) == e.output + ";" + e.created + ";" + e.last + ";"
  {
    assert Cells(e)[1..] == [e.created, e.last] && [e.created, e.last][1..] == [e.last] && [e.last][1..] == [];
    assert RowLine([e.last]) == e.last + ";" + RowLine([]) == e.last + ";";
    assert RowLine([e.created, e.last]) == e.created + ";" + RowLine([e.last]);
    assert RowLine(Cells(e)) == e.output + ";" + RowLine([e.created, e.last]);
  }

  lemma {:induction false} RowsPush(store: seq<Entry>, e: Entry)
    ensures Rows(store + [e]) == Rows(store) + [RowLine(Cells(e))]
  {
    hide RowLine, Cells;
    if store == [] {
      assert store + [e] == [e] && [e][1..] == [];
    } else {
      assert (store + [e])[1..] == store[1..] + [e];
      RowsPush(store[1..], e);
    }
  }
}
