/** A run's forward journal, internal/journal/journal.go: an append-only file, and handles that number
    its lines from what they last knew. */
module Journal {
  import F = FileLedger
  import L = Ledger
  import opened Wrappers

  datatype Form = FormRead | FormCreate | FormUpdate | FormDelete

  /** One forward effect: the key, the exchange that performs it, and the plan it replaces. */
  datatype Record = Record(key: F.Key, exchange: string, form: Form, prior: L.Bytes)

  datatype Line = Line(no: nat, record: Record)

  /** How writing a line goes: it reaches disk, it is never written, it is written and the sync fails, or
      the write stops short, before the newline or inside the record. */
  datatype Write = Synced | Unwritten | Unsynced | Cut | Torn

  /** What stands between two newlines: one record, or text that is none. */
  datatype Piece = Intact(line: Line) | Junk

  /** A run's file; the last piece may lack its newline. */
  datatype Text = Text(pieces: seq<Piece>, ended: bool)

  const EMPTY := Text([], true)

  /** Writing goes on where the file ends. A record broken off, or begun on a line that was not ended, is no record. */
  function Written(t: Text, l: Line, w: Write): Text {
    var whole := w.Synced? || w.Unsynced?;
    if w.Unwritten? then t
    else if t.ended then Text(t.pieces + [if w.Torn? then Junk else Intact(l)], whole)
    else Text(t.pieces[..|t.pieces| - if t.pieces == [] then 0 else 1] + [Junk], whole)
  }

  /** What reading the file gives: nothing at all if one piece is no record, or is too long to scan. */
  function Decoded(t: Text, fits: Line -> bool): Option<seq<Line>> {
    if forall x | x in t.pieces :: x.Intact? && fits(x.line)
    then Some(seq(|t.pieces|, i requires 0 <= i < |t.pieces| && (forall x | x in t.pieces :: x.Intact?) => t.pieces[i].line))
    else None
  }

  lemma DecodedIs(t: Text, fits: Line -> bool, lines: seq<Line>)
    requires |lines| == |t.pieces| && forall i | 0 <= i < |lines| :: t.pieces[i] == Intact(lines[i]) && fits(lines[i])
    ensures Decoded(t, fits) == Some(lines)
  {
    assert forall x | x in t.pieces :: x.Intact? && fits(x.line);
    assert Decoded(t, fits).value == lines;
  }

  /** One append from a handle that last assigned number last, 0 if it has assigned none. */
  function Appended(t: Text, last: nat, fits: Line -> bool, r: Record, w: Write): (Text, nat, Option<nat>) {
    var known := Decoded(t, fits);
    if last == 0 && known.None? then (t, 0, None)
    else
      var n := (if last == 0 then |known.value| else last) + 1;
      (Written(t, Line(n, r), w), n, if w.Synced? then Some(n) else None)
  }

  ghost predicate Increasing(lines: seq<Line>) {
    forall i, j | 0 <= i < j < |lines| :: lines[i].no < lines[j].no
  }

  ghost predicate Numbered(lines: seq<Line>) {
    forall i | 0 <= i < |lines| :: lines[i].no == i + 1
  }

  class File {
    var text: Text

    constructor ()
      ensures text == EMPTY
    {
      text := EMPTY;
    }
  }

  class RunJournal {
    const file: File
    /** Whether a line is shorter than the 65,536 bytes the scanner takes. */
    const fits: Line -> bool
    var last: nat

    /** A handle on a run's file: a fresh run's, or one reopened by another process. */
    constructor (file: File, fits: Line -> bool)
      ensures this.file == file && this.fits == fits && last == 0
    {
      this.file, this.fits, last := file, fits, 0;
    }

    /** A returned number means its line was written out and synced, after everything already there. */
    method Append(r: Record, unreadable: bool, w: Write) returns (n: Option<nat>)
      modifies this, file
      ensures if old(last) == 0 && unreadable then n == None && file.text == old(file.text) && last == 0
              else (file.text, last, n) == Appended(old(file.text), old(last), fits, r, w)
    {
      if last == 0 {
        var existing := Read(unreadable);
        if existing.None? {
          return None;
        }
        last := |existing.value|;
      }
      last := last + 1;
      file.text := Written(file.text, Line(last, r), w);
      return if w.Synced? then Some(last) else None;
    }

    method Read(unreadable: bool) returns (lines: Option<seq<Line>>)
      ensures lines == if unreadable then None else Decoded(file.text, fits)
    {
      if unreadable {
        return None;
      }
      var pieces := file.text.pieces;
      var out: seq<Line> := [];
      for i := 0 to |pieces|
        invariant forall x | x in pieces[..i] :: x.Intact? && fits(x.line)
        invariant |out| == i && forall j | 0 <= j < i :: out[j] == pieces[j].line
      {
        assert pieces[i] in pieces && pieces[..i + 1] == pieces[..i] + [pieces[i]];
        if pieces[i].Junk? || !fits(pieces[i].line) {
          return None;
        }
        out := out + [pieces[i].line];
      }
      assert forall i | 0 <= i < |pieces| :: pieces[i] in pieces[..|pieces|];
      DecodedIs(file.text, fits, out);
      return Some(out);
    }

    /** Every record, in append order. */
    method Records(unreadable: bool) returns (recs: Option<seq<Record>>)
      ensures recs.Some? <==> !unreadable && Decoded(file.text, fits).Some?
      ensures recs.Some? ==>
                var lines := Decoded(file.text, fits).value;
                |recs.value| == |lines| && forall i | 0 <= i < |lines| :: recs.value[i] == lines[i].record
    {
      var lines := Read(unreadable);
      if lines.None? {
        return None;
      }
      var out := [];
      for i := 0 to |lines.value|
        invariant |out| == i && forall j | 0 <= j < i :: out[j] == lines.value[j].record
      {
        out := out + [lines.value[i].record];
      }
      return Some(out);
    }
  }

  /** A run's appends, all through the handle that began it. */
  function AppendAll(appends: seq<(Record, Write)>, fits: Line -> bool): (Text, nat) {
    if appends == [] then (EMPTY, 0)
    else
      var n := |appends| - 1;
      var before := AppendAll(appends[..n], fits);
      var after := Appended(before.0, before.1, fits, appends[n].0, appends[n].1);
      (after.0, after.1)
  }

  /** The lines of the appends that were written out, each under its place among all appends. */
  function Landed(appends: seq<(Record, Write)>): seq<Line> {
    if appends == [] then []
    else
      var n := |appends| - 1;
      Landed(appends[..n]) + if appends[n].1.Unwritten? || appends[n].1.Torn? then [] else [Line(n + 1, appends[n].0)]
  }

  /** No write broke off inside a record, and nothing was written after one that broke off before its newline. */
  ghost predicate Unbroken(appends: seq<(Record, Write)>) {
    && (forall i | 0 <= i < |appends| :: !appends[i].1.Torn?)
    && (forall i, j | 0 <= i < j < |appends| && appends[i].1.Cut? :: appends[j].1.Unwritten?)
  }

  ghost predicate HasCut(appends: seq<(Record, Write)>) {
    exists i | 0 <= i < |appends| :: appends[i].1.Cut?
  }

  lemma UnbrokenSnoc(appends: seq<(Record, Write)>)
    requires appends != []
    ensures var n := |appends| - 1; var w := appends[n].1;
            && (Unbroken(appends) <==>
                  Unbroken(appends[..n]) && !w.Torn? && (w.Unwritten? || !HasCut(appends[..n])))
            && (HasCut(appends) <==> HasCut(appends[..n]) || w.Cut?)
  {
    var n := |appends| - 1;
    assert forall i | 0 <= i < n :: appends[..n][i] == appends[i];
  }

  /** What the file holds after a run's appends: their lines, or junk for good. */
  ghost predicate Holds(t: Text, appends: seq<(Record, Write)>) {
    && (t.pieces == [] ==> t.ended)
    && if Unbroken(appends) then
         && |t.pieces| == |Landed(appends)| && (t.ended <==> !HasCut(appends))
         && forall i | 0 <= i < |t.pieces| :: t.pieces[i] == Intact(Landed(appends)[i])
       else Junk in t.pieces
  }

  lemma WriteHolds(t: Text, appends: seq<(Record, Write)>, n: nat)
    requires appends != [] && n == |appends| - 1 && Holds(t, appends[..n])
    ensures Holds(Written(t, Line(n + 1, appends[n].0), appends[n].1), appends)
  {
    hide Unbroken, HasCut;
    UnbrokenSnoc(appends);
    var t' := Written(t, Line(n + 1, appends[n].0), appends[n].1);
    if !Unbroken(appends[..n]) {
      var i :| 0 <= i < |t.pieces| && t.pieces[i] == Junk;
      assert i < |t'.pieces| && t'.pieces[i] == Junk;
    } else if !Unbroken(appends) {
      assert t'.pieces[|t'.pieces| - 1] == Junk;
    }
  }

  lemma {:induction false} AppendsHold(appends: seq<(Record, Write)>, fits: Line -> bool)
    ensures var (t, last) := AppendAll(appends, fits); last == |appends| && Holds(t, appends)
    decreases |appends|
  {
    hide Holds;
    if appends == [] {
      assert Holds(EMPTY, appends) by { NothingHolds(appends); }
    } else {
      var n := |appends| - 1;
      AppendsHold(appends[..n], fits);
      WriteHolds(AppendAll(appends[..n], fits).0, appends, n);
    }
  }

  lemma NothingHolds(appends: seq<(Record, Write)>)
    requires appends == []
    ensures Holds(EMPTY, appends)
  {
  }

  /** A run's journal reads back as exactly the records that were written out, in order, if and only if no
      write broke off inside a record, none followed one that lost its newline, and every line is short
      enough to scan; otherwise it cannot be read at all. */
  lemma ReadsBackIff(appends: seq<(Record, Write)>, fits: Line -> bool)
    ensures Decoded(AppendAll(appends, fits).0, fits)
            == if Unbroken(appends) && (forall l | l in Landed(appends) :: fits(l)) then Some(Landed(appends)) else None
  {
    hide Unbroken, HasCut;
    AppendsHold(appends, fits);
    var t, lines := AppendAll(appends, fits).0, Landed(appends);
    if Unbroken(appends) {
      assert forall i | 0 <= i < |lines| :: lines[i] in lines && t.pieces[i] in t.pieces && t.pieces[i].line == lines[i];
      if forall l | l in lines :: fits(l) { DecodedIs(t, fits, lines); }
    }
  }

  /** So a returned number does not promise that its record can be read: one append breaks off, the next is
      written and synced, and the journal can no longer be read. */
  lemma ReturnedNumberCanBeLost(r: Record, s: Record, fits: Line -> bool)
    ensures var broken := AppendAll([(r, Torn)], fits);
            var (t, last, n) := Appended(broken.0, broken.1, fits, s, Synced);
            n == Some(2) && Decoded(t, fits) == None
  {
    assert [(r, Torn)][..0] == [];
    DecodedIs(EMPTY, fits, []);
    assert Written(EMPTY, Line(1, r), Torn).pieces == [Junk];
    assert AppendAll([(r, Torn)], fits) == (Text([Junk], false), 1);
    assert Junk in [Junk];
  }

  /** What one handle keeps of the lines it has written, last being the number it last assigned. */
  ghost predicate Ascending(lines: seq<Line>, last: nat) {
    Increasing(lines) && |lines| <= last && forall i | 0 <= i < |lines| :: i < lines[i].no <= last
  }

  /** Through one handle the numbers written out increase whatever fails; they run from 1 to the number of
      appends exactly when every append was written out. */
  lemma {:induction false} OneHandleNumbersIncrease(appends: seq<(Record, Write)>)
    ensures var lines := Landed(appends);
            && Ascending(lines, |appends|)
            && (|lines| == |appends| <==> forall i | 0 <= i < |appends| :: !appends[i].1.Unwritten? && !appends[i].1.Torn?)
            && (|lines| == |appends| ==> Numbered(lines))
    decreases |appends|
  {
    if appends != [] {
      var n := |appends| - 1;
      OneHandleNumbersIncrease(appends[..n]);
      assert forall i | 0 <= i < n :: appends[..n][i] == appends[i];
      NoGap(Landed(appends), |appends|);
    }
  }

  /** As many lines as numbers assigned leaves no gap. */
  lemma NoGap(lines: seq<Line>, last: nat)
    requires Ascending(lines, last)
    ensures |lines| <= last && (|lines| == last ==> Numbered(lines))
  {
    forall i | 0 <= i < |lines| && |lines| == last ensures lines[i].no == i + 1 {
      Spread(lines, i);
    }
  }

  /** A handle reopened on a run's file appends a line that can be read back, with the numbers still
      increasing, exactly when they have no gap, the last line has its newline, and the new one is short
      enough. */
  lemma ReopeningNeedsNoGap(t: Text, lines: seq<Line>, fits: Line -> bool, r: Record)
    requires Decoded(t, fits) == Some(lines) && (t.pieces == [] ==> t.ended)
    requires Increasing(lines) && forall i | 0 <= i < |lines| :: i < lines[i].no
    ensures var after := Decoded(Appended(t, 0, fits, r, Synced).0, fits);
            after.Some? && Increasing(after.value) <==> Numbered(lines) && t.ended && fits(Line(|lines| + 1, r))
  {
    var l := Line(|lines| + 1, r);
    var t' := Appended(t, 0, fits, r, Synced).0;
    assert t'.pieces[|t'.pieces| - 1] in t'.pieces;
    if t.ended && fits(l) {
      assert forall i | 0 <= i < |lines| :: t.pieces[i] in t.pieces;
      assert Decoded(t', fits).value == lines + [l];
      if Increasing(lines + [l]) {
        forall i | 0 <= i < |lines| ensures lines[i].no == i + 1 {
          assert (lines + [l])[i].no < (lines + [l])[|lines|].no;
          Spread(lines + [l], i);
        }
      }
    }
  }

  /** Increasing numbers are at least as far apart as their lines. */
  lemma {:induction false} Spread(lines: seq<Line>, i: nat)
    requires Increasing(lines) && i < |lines|
    ensures lines[i].no + (|lines| - 1 - i) <= lines[|lines| - 1].no
    decreases |lines| - i
  {
    if i + 1 < |lines| {
      Spread(lines, i + 1);
    }
  }

  /** So a number can repeat: the first append of a run is not written, the second is, and a process that
      reopens the journal gives out the second's number again. */
  lemma ReopeningCanRepeatANumber(r: Record, fits: Line -> bool)
    requires fits(Line(2, r))
    ensures var t := AppendAll([(r, Unwritten), (r, Synced)], fits).0;
            Decoded(Appended(t, 0, fits, r, Synced).0, fits) == Some([Line(2, r), Line(2, r)])
  {
    var appends := [(r, Unwritten), (r, Synced)];
    assert appends[..1] == [(r, Unwritten)] && [(r, Unwritten)][..0] == [];
    DecodedIs(EMPTY, fits, []);
    assert AppendAll([(r, Unwritten)], fits) == (EMPTY, 1);
    var t := AppendAll(appends, fits).0;
    assert t == Text([Intact(Line(2, r))], true);
    DecodedIs(t, fits, [Line(2, r)]);
    DecodedIs(Appended(t, 0, fits, r, Synced).0, fits, [Line(2, r), Line(2, r)]);
  }
}
