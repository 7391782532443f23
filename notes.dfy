/** The calendar-notes store of the weather-and-notes window: an in-memory,
    insertion-ordered dictionary from a selected date to a note, and the
    list box that shows one "date: note" line per stored date.

    Python's dict iterates in insertion order, and assigning to a key that is
    already present keeps that key where it was. The dictionary is therefore
    modelled as the sequence of its keys in iteration order (`dates`) beside
    the map itself (`notes`). */
module CalendarNotes {

  /** No date occurs twice in the iteration order. */
  predicate Distinct(ks: seq<string>) {
    forall i, j :: 0 <= i < j < |ks| ==> ks[i] != ks[j]
  }

  /** Every key of `ks` has an entry in `m`. */
  predicate Covers(ks: seq<string>, m: map<string, string>) {
    forall i :: 0 <= i < |ks| ==> ks[i] in m
  }

  /** The notes dictionary as a value: its keys in iteration order and the
      date-to-note mapping. */
  datatype Store = Store(dates: seq<string>, notes: map<string, string>)

  /** The dictionary at start-up (`notes = {}`). */
  const Empty := Store([], map[])

  /** A well-formed dictionary: `dates` lists each key of `notes` exactly once. */
  ghost predicate WellFormed(s: Store) {
    && Distinct(s.dates)
    && (forall k :: k in s.notes <==> k in s.dates)
  }

  /** `notes[d] = n` on a Python dict: the entry for `d` is replaced or added;
      a new key goes to the end of the iteration order. */
  function Put(s: Store, d: string, n: string): (r: Store)
    ensures d in r.notes && r.notes[d] == n
    ensures forall k :: k != d ==> (k in r.notes <==> k in s.notes)
    ensures forall k :: k != d && k in s.notes ==> r.notes[k] == s.notes[k]
    ensures WellFormed(s) ==> WellFormed(r)
  {
    Store(if d in s.notes then s.dates else s.dates + [d], s.notes[d := n])
  }

  /** The list-box line for one entry (`f"{date}: {note}"`). */
  function Line(date: string, note: string): (line: string)
    ensures |line| == |date| + 2 + |note|
    ensures line[..|date|] == date && line[|date|..|date| + 2] == ": "
    ensures line[|date| + 2..] == note
  {
    date + ": " + note
  }

  /** One line per key of `ks`, in the order of `ks`. */
  function RowsOf(ks: seq<string>, m: map<string, string>): (rows: seq<string>)
    requires Covers(ks, m)
    ensures |rows| == |ks|
  {
    if ks == [] then [] else RowsOf(ks[..|ks| - 1], m) + [Line(ks[|ks| - 1], m[ks[|ks| - 1]])]
  }

  /** The contents of the list box after `update_notes_list`. */
  function Rows(s: Store): (rows: seq<string>)
    requires WellFormed(s)
    ensures |rows| == |s.dates| == |s.notes|
  {
    StoreSize(s);
    RowsOf(s.dates, s.notes)
  }

  /** Row `i` shows the `i`-th date of the iteration order and its note. */
  lemma {:induction false} RowsOfAt(ks: seq<string>, m: map<string, string>, i: int)
    requires Covers(ks, m) && 0 <= i < |ks|
    ensures RowsOf(ks, m)[i] == Line(ks[i], m[ks[i]])
  {
    var init := ks[..|ks| - 1];
    if i < |ks| - 1 {
      assert init[i] == ks[i];
      RowsOfAt(init, m, i);
    }
  }

  /** Appending a key appends exactly its line. */
  lemma RowsOfSnoc(ks: seq<string>, m: map<string, string>, d: string)
    requires Covers(ks, m) && d in m
    ensures RowsOf(ks + [d], m) == RowsOf(ks, m) + [Line(d, m[d])]
  {
  }

  /** Changing the note of a date that `ks` does not list leaves the rows alone. */
  lemma {:induction false} RowsOfOtherKey(ks: seq<string>, m: map<string, string>, d: string, n: string)
    requires Covers(ks, m)
    requires forall i :: 0 <= i < |ks| ==> ks[i] != d
    ensures RowsOf(ks, m[d := n]) == RowsOf(ks, m)
  {
    if ks != [] {
      RowsOfOtherKey(ks[..|ks| - 1], m, d, n);
    }
  }

  /** A duplicate-free sequence has as many distinct elements as it is long. */
  lemma {:induction false} DistinctCardinality(ks: seq<string>)
    requires Distinct(ks)
    ensures |set k | k in ks| == |ks|
  {
    if ks != [] {
      var init := ks[..|ks| - 1];
      var last := ks[|ks| - 1];
      DistinctCardinality(init);
      assert ks == init + [last];
      assert (set k | k in ks) == (set k | k in init) + {last};
      assert last !in (set k | k in init);
    }
  }

  /** The number of entries equals the number of dates in the iteration order. */
  lemma StoreSize(s: Store)
    requires WellFormed(s)
    ensures |s.notes| == |s.dates|
  {
    DistinctCardinality(s.dates);
    assert s.notes.Keys == set k | k in s.dates;
  }

  /** Saving for a date not yet stored adds exactly one entry, at the end of
      the iteration order, and exactly one line at the end of the list box. */
  lemma PutNewDate(s: Store, d: string, n: string)
    requires WellFormed(s) && d !in s.notes
    ensures Put(s, d, n).dates == s.dates + [d]
    ensures |Put(s, d, n).notes| == |s.notes| + 1
    ensures Rows(Put(s, d, n)) == Rows(s) + [Line(d, n)]
  {
    var r := Put(s, d, n);
    StoreSize(s);
    StoreSize(r);
    RowsOfOtherKey(s.dates, s.notes, d, n);
    RowsOfSnoc(s.dates, r.notes, d);
  }

  /** Saving for a date already stored keeps the entry count and the order of
      the dates; only that date's line changes, in place. */
  lemma PutKnownDate(s: Store, d: string, n: string)
    requires WellFormed(s) && d in s.notes
    ensures Put(s, d, n).dates == s.dates
    ensures |Put(s, d, n).notes| == |s.notes|
    ensures |Rows(Put(s, d, n))| == |Rows(s)|
    ensures forall i :: 0 <= i < |s.dates| ==>
      Rows(Put(s, d, n))[i] == if s.dates[i] == d then Line(d, n) else Rows(s)[i]
  {
    var r := Put(s, d, n);
    StoreSize(s);
    StoreSize(r);
    forall i | 0 <= i < |s.dates|
      ensures Rows(r)[i] == if s.dates[i] == d then Line(d, n) else Rows(s)[i]
    {
      RowsOfAt(r.dates, r.notes, i);
      RowsOfAt(s.dates, s.notes, i);
    }
  }

  /** The list box agrees with the dictionary: row `i` is the line of the
      `i`-th date, and every stored date has exactly one row, showing its note. */
  lemma RowsAgree(s: Store)
    requires WellFormed(s)
    ensures |Rows(s)| == |s.notes|
    ensures forall i :: 0 <= i < |s.dates| ==> Rows(s)[i] == Line(s.dates[i], s.notes[s.dates[i]])
    ensures forall k :: k in s.notes ==>
      exists i :: 0 <= i < |s.dates| && s.dates[i] == k && Rows(s)[i] == Line(k, s.notes[k])
    // Restated from `WellFormed` for callers: a date's row index is unique.
    ensures forall i, j :: 0 <= i < |s.dates| && 0 <= j < |s.dates| && s.dates[i] == s.dates[j] ==> i == j
  {
    StoreSize(s);
    forall i | 0 <= i < |s.dates|
      ensures Rows(s)[i] == Line(s.dates[i], s.notes[s.dates[i]])
    {
      RowsOfAt(s.dates, s.notes, i);
    }
  }

  /** A line determines its note once its date is known. */
  lemma LineInjective(d: string, n1: string, n2: string)
    requires Line(d, n1) == Line(d, n2)
    ensures n1 == n2
  {
  }

  /** With the same iteration order, the list box determines the notes: two
      dictionaries that display the same lines are equal. */
  lemma RowsDetermineNotes(s: Store, t: Store)
    requires WellFormed(s) && WellFormed(t) && s.dates == t.dates
    requires Rows(s) == Rows(t)
    ensures s == t
  {
    forall k | k in s.notes
      ensures k in t.notes && s.notes[k] == t.notes[k]
    {
      var i :| 0 <= i < |s.dates| && s.dates[i] == k;
      RowsOfAt(s.dates, s.notes, i);
      RowsOfAt(t.dates, t.notes, i);
      LineInjective(k, s.notes[k], t.notes[k]);
    }
    assert s.notes == t.notes;
  }

  /** The notes part of the window: the module-level `notes` dictionary and
      the `notes_list` list box. Its methods are the two callbacks. */
  class NotesPanel {
    /** Keys of `notes` in iteration order. */
    var dates: seq<string>
    var notes: map<string, string>
    /** Lines of the list box, top to bottom. */
    var listbox: seq<string>

    function Contents(): (s: Store)
      reads this
    {
      Store(dates, notes)
    }

    /** The dictionary is well formed and the list box shows it. */
    ghost predicate Valid()
      reads this
    {
      WellFormed(Contents()) && listbox == Rows(Contents())
    }

    /** The window at start-up: no notes and an empty list box. */
    constructor ()
      ensures Valid()
      ensures Contents() == Empty && listbox == []
    {
      dates, notes, listbox := [], map[], [];
    }

    /** `save_note`: `selectedDate` is what the calendar reports and `note` the
        text of the note field. An empty note raises the warning dialog
        (`warned`) and changes nothing; otherwise the note is stored under the
        date and the list box is rebuilt. */
    method SaveNote(selectedDate: string, note: string) returns (warned: bool)
      requires Valid()
      modifies this
      ensures Valid()
      ensures warned <==> note == ""
      ensures warned ==> Contents() == old(Contents()) && listbox == old(listbox)
      ensures !warned ==> Contents() == Put(old(Contents()), selectedDate, note)
    {
      if note == "" {
        warned := true;
        return;
      }
      warned := false;
      if selectedDate !in notes {
        dates := dates + [selectedDate];
      }
      notes := notes[selectedDate := note];
      UpdateNotesList();
    }

    /** `update_notes_list`: empties the list box, then appends one line per
        entry in iteration order. The result depends on the dictionary only,
        not on what the list box held before. */
    method UpdateNotesList()
      requires WellFormed(Contents())
      modifies this`listbox
      ensures Valid()
      ensures listbox == Rows(Contents())
    {
      listbox := [];
      var i := 0;
      while i < |dates|
        invariant 0 <= i <= |dates|
        invariant Covers(dates[..i], notes)
        invariant listbox == RowsOf(dates[..i], notes)
      {
        RowsOfSnoc(dates[..i], notes, dates[i]);
        assert dates[..i + 1] == dates[..i] + [dates[i]];
        listbox := listbox + [Line(dates[i], notes[dates[i]])];
        i := i + 1;
      }
      assert dates[..i] == dates;
    }
  }
}
