/** The rename of an adopted artifact in the archived stash: harvested IDs are rewritten line by
    line, and stashes whose latest provenance correction names the old ID get a successor. */
module AdoptStash {
  import opened Bytes
  import opened Options

  // ---- archive/stash.jsonl ----

  /** What json.Unmarshal makes of a line: rest stands for every other member. */
  datatype Parse = Blank | Malformed | Entry(harvested: Option<Text>, rest: Text)

  datatype Line = Line(raw: Text, parse: Parse)

  /** bytes.Contains. */
  predicate Contains(t: Text, s: Text) {
    exists i :: 0 <= i <= |t| && StartsAt(t, i, s)
  }

  predicate StartsAt(t: Text, i: nat, s: Text) {
    i + |s| <= |t| && t[i..i + |s|] == s
  }

  lemma ContainsMeaning(t: Text, s: Text)
    ensures Contains(t, s) <==> exists front, back :: Surrounds(t, front, s, back)
  {
    if i :| 0 <= i <= |t| && StartsAt(t, i, s) {
      assert Surrounds(t, t[..i], s, t[i + |s|..]);
    }
    if front, back :| Surrounds(t, front, s, back) {
      assert StartsAt(t, |front|, s);
    }
  }

  predicate Surrounds(t: Text, front: Text, s: Text, back: Text) {
    t == front + s + back
  }

  predicate Harvests(l: Line, id: Text) {
    l.parse.Entry? && l.parse.harvested == Some(id)
  }

  /** A line the prefilter passes on to the parser. */
  predicate Examined(l: Line, oldId: Text) {
    !l.parse.Blank? && Contains(l.raw, oldId)
  }

  /** One line after the rewrite; `marshal` stands for json.Marshal of the changed record. */
  function RewriteLine(l: Line, oldId: Text, newId: Text, marshal: (Text, Text) -> Text): Line {
    if Examined(l, oldId) && Harvests(l, oldId)
    then Line(marshal(newId, l.parse.rest), Entry(Some(newId), l.parse.rest)) else l
  }

  function RewriteLines(ls: seq<Line>, oldId: Text, newId: Text, marshal: (Text, Text) -> Text): seq<Line> {
    seq(|ls|, i requires 0 <= i < |ls| => RewriteLine(ls[i], oldId, newId, marshal))
  }

  predicate Readable(ls: seq<Line>, oldId: Text) {
    forall i :: 0 <= i < |ls| && Examined(ls[i], oldId) ==> !ls[i].parse.Malformed?
  }

  /** rewriteHarvestedArtifactID: the lines are split, changed in place and joined. */
  method RewriteHarvested(raw: seq<Line>, oldId: Text, newId: Text, marshal: (Text, Text) -> Text)
    returns (r: Option<seq<Line>>, changed: bool)
    ensures r.Some? <==> Readable(raw, oldId)
    ensures r.Some? ==> r.value == RewriteLines(raw, oldId, newId, marshal)
    ensures r.Some? ==> (changed <==> exists i :: 0 <= i < |raw| && Examined(raw[i], oldId) && Harvests(raw[i], oldId))
  {
    var lines := raw;
    changed := false;
    for i := 0 to |raw|
      invariant |lines| == |raw| && lines[i..] == raw[i..]
      invariant lines[..i] == RewriteLines(raw[..i], oldId, newId, marshal)
      invariant Readable(raw[..i], oldId)
      invariant changed <==> exists j :: 0 <= j < i && Examined(raw[j], oldId) && Harvests(raw[j], oldId)
    {
      assert raw[..i + 1] == raw[..i] + [raw[i]] && lines[i] == raw[i..][0];
      ghost var done := lines[..i];
      if Examined(lines[i], oldId) {
        if lines[i].parse.Malformed? {
          return None, false;
        }
        if lines[i].parse.harvested == Some(oldId) {
          var rest := lines[i].parse.rest;
          lines := lines[i := Line(marshal(newId, rest), Entry(Some(newId), rest))];
          changed := true;
        }
      }
      assert lines[..i + 1] == done + [RewriteLine(raw[i], oldId, newId, marshal)];
    }
    assert raw[..|raw|] == raw && lines[..|raw|] == lines;
    return Some(lines), changed;
  }

  /** The rewrite leaves no line harvesting the old ID exactly when every such line spells the ID
      out in its bytes; then a second rewrite changes nothing. Such a line becomes the marshalled
      record with the new ID and the other members it had; every other line is untouched. */
  lemma HarvestedIsRenamed(ls: seq<Line>, oldId: Text, newId: Text, marshal: (Text, Text) -> Text)
    requires oldId != newId
    ensures var out := RewriteLines(ls, oldId, newId, marshal);
      && |out| == |ls|
      && ((forall i :: 0 <= i < |out| ==> !Harvests(out[i], oldId))
           <==> forall i :: 0 <= i < |ls| && Harvests(ls[i], oldId) ==> Contains(ls[i].raw, oldId))
      && (forall i :: 0 <= i < |ls| && !Harvests(ls[i], oldId) ==> out[i] == ls[i])
      && (forall i :: 0 <= i < |ls| && Harvests(ls[i], oldId) && Contains(ls[i].raw, oldId) ==>
            Harvests(out[i], newId) && out[i].parse.rest == ls[i].parse.rest && out[i].raw == marshal(newId, ls[i].parse.rest))
      && RewriteLines(out, oldId, newId, marshal) == out
  {
    var out := RewriteLines(ls, oldId, newId, marshal);
    assert forall i :: 0 <= i < |ls| ==> out[i] == RewriteLine(ls[i], oldId, newId, marshal);
  }

  // ---- archive/provenance_corrections.jsonl ----

  datatype Correction = Correction(stashId: Text, delivery: Text, rest: Text)
  datatype Row = NoRow | BadRow | Row(c: Correction)

  /** Whether row i is the latest correction of its stash. */
  predicate IsLatest(rows: seq<Row>, i: nat)
    requires i < |rows|
  {
    && rows[i].Row? && rows[i].c.stashId != []
    && forall j :: i < j < |rows| && rows[j].Row? ==> rows[j].c.stashId != rows[i].c.stashId
  }

  /** No stash's latest correction names the ID. */
  predicate NamesNowhere(rows: seq<Row>, id: Text) {
    forall i :: 0 <= i < |rows| && IsLatest(rows, i) ==> rows[i].c.delivery != id
  }

  predicate Decodable(rows: seq<Row>) {
    forall i :: 0 <= i < |rows| ==> !rows[i].BadRow?
  }

  /** The latest correction of each stash is in `latest`, and is row at[s]; each stash is once in
      `order`. */
  ghost predicate Indexed(rows: seq<Row>, latest: map<Text, Correction>, order: seq<Text>, at: map<Text, nat>) {
    && latest.Keys == at.Keys && (forall s :: s in order <==> s in at)
    && (forall i, j :: 0 <= i < j < |order| ==> order[i] != order[j])
    && (forall s :: s in at ==> at[s] < |rows| && IsLatest(rows, at[s]) && rows[at[s]].c == latest[s] && latest[s].stashId == s)
    && (forall i :: 0 <= i < |rows| && rows[i].Row? && rows[i].c.stashId != [] ==> rows[i].c.stashId in at)
  }

  lemma IndexRow(rows: seq<Row>, n: nat, latest: map<Text, Correction>, order: seq<Text>, at: map<Text, nat>)
    requires n < |rows| && rows[n].Row? && rows[n].c.stashId != [] && Indexed(rows[..n], latest, order, at)
    ensures var c := rows[n].c;
            Indexed(rows[..n + 1], latest[c.stashId := c], order + (if c.stashId in latest then [] else [c.stashId]), at[c.stashId := n])
  {
    var now, was, c := rows[..n + 1], rows[..n], rows[n].c;
    assert now == was + [rows[n]];
    assert IsLatest(now, n);
    forall s | s in at && s != c.stashId ensures IsLatest(now, at[s]) {
      assert was[at[s]].c.stashId == s;
    }
  }

  lemma SkipRow(rows: seq<Row>, n: nat, latest: map<Text, Correction>, order: seq<Text>, at: map<Text, nat>)
    requires n < |rows| && (rows[n].Row? ==> rows[n].c.stashId == []) && Indexed(rows[..n], latest, order, at)
    ensures Indexed(rows[..n + 1], latest, order, at)
  {
    var now, was := rows[..n + 1], rows[..n];
    assert now == was + [rows[n]];
    forall s | s in at ensures IsLatest(now, at[s]) && s != [] {
      assert IsLatest(was, at[s]);
    }
  }

  /** A successor keeps its stash and other members and names the new ID. */
  function Successor(c: Correction, newId: Text, stamp: Text -> Text): Correction {
    c.(delivery := newId, rest := stamp(c.rest))
  }

  /** Row i is the latest of its stash and names the ID. */
  predicate NamesLatest(rows: seq<Row>, i: nat, id: Text) {
    i < |rows| && IsLatest(rows, i) && rows[i].c.delivery == id
  }

  /** One successor, of row src[k], for each stash whose latest correction names the old ID. */
  ghost predicate Succeeds(rows: seq<Row>, out: seq<Correction>, src: seq<nat>, oldId: Text, newId: Text, stamp: Text -> Text) {
    && |src| == |out|
    && (forall i :: NamesLatest(rows, i, oldId) ==> i in src)
    && (forall k :: 0 <= k < |out| ==> NamesLatest(rows, src[k], oldId) && out[k] == Successor(rows[src[k]].c, newId, stamp))
    && (forall i, j :: 0 <= i < j < |out| ==> out[i].stashId != out[j].stashId)
  }

  /** successorCorrections; None when a line does not decode. */
  method SuccessorCorrections(rows: seq<Row>, oldId: Text, newId: Text, stamp: Text -> Text)
    returns (r: Option<seq<Correction>>, ghost src: seq<nat>)
    ensures r.Some? <==> Decodable(rows)
    ensures r.Some? ==> Succeeds(rows, r.value, src, oldId, newId, stamp)
  {
    var latest: map<Text, Correction>, order: seq<Text>;
    ghost var at;
    var ok: bool;
    ok, latest, order, at := IndexCorrections(rows);
    src := [];
    if !ok {
      return None, src;
    }
    var out: seq<Correction> := [];
    for k := 0 to |order|
      invariant Emitted(rows, order, at, k, out, src, oldId, newId, stamp)
    {
      var c := latest[order[k]];
      EmitStep(rows, latest, order, at, k, out, src, oldId, newId, stamp);
      if c.delivery == oldId {
        out, src := out + [Successor(c, newId, stamp)], src + [at[order[k]]];
      }
    }
    EmittedAll(rows, latest, order, at, out, src, oldId, newId, stamp);
    return Some(out), src;
  }

  /** The successors of the first k stashes. */
  ghost predicate Emitted(rows: seq<Row>, order: seq<Text>, at: map<Text, nat>, k: nat, out: seq<Correction>, src: seq<nat>,
      oldId: Text, newId: Text, stamp: Text -> Text) {
    && k <= |order| && |src| == |out|
    && (forall i :: 0 <= i < |out| ==> NamesLatest(rows, src[i], oldId) && out[i] == Successor(rows[src[i]].c, newId, stamp))
    && (forall i :: 0 <= i < |out| ==> out[i].stashId in order[..k])
    && (forall h :: 0 <= h < k && order[h] in at && NamesLatest(rows, at[order[h]], oldId) ==> at[order[h]] in src)
    && (forall i, j :: 0 <= i < j < |out| ==> out[i].stashId != out[j].stashId)
  }

  lemma EmitStep(rows: seq<Row>, latest: map<Text, Correction>, order: seq<Text>, at: map<Text, nat>, k: nat,
      out: seq<Correction>, src: seq<nat>, oldId: Text, newId: Text, stamp: Text -> Text)
    requires k < |order| && Indexed(rows, latest, order, at) && Emitted(rows, order, at, k, out, src, oldId, newId, stamp)
    ensures order[k] in latest && order[k] in at
    ensures var c := latest[order[k]];
            if c.delivery == oldId
            then Emitted(rows, order, at, k + 1, out + [Successor(c, newId, stamp)], src + [at[order[k]]], oldId, newId, stamp)
            else Emitted(rows, order, at, k + 1, out, src, oldId, newId, stamp)
  {
    assert order[k] in order;
    var i, c := at[order[k]], latest[order[k]];
    assert i < |rows| && IsLatest(rows, i) && rows[i].c == c && c.stashId == order[k];
    assert NamesLatest(rows, i, oldId) <==> c.delivery == oldId;
    assert order[k] !in order[..k];
    hide IsLatest, NamesLatest, Indexed, Emitted, Successor;
    if c.delivery == oldId {
      EmitOne(rows, order, at, k, out, src, oldId, newId, stamp);
    } else {
      EmitNone(rows, order, at, k, out, src, oldId, newId, stamp);
    }
  }

  lemma EmitOne(rows: seq<Row>, order: seq<Text>, at: map<Text, nat>, k: nat, out: seq<Correction>, src: seq<nat>,
      oldId: Text, newId: Text, stamp: Text -> Text)
    requires k < |order| && Emitted(rows, order, at, k, out, src, oldId, newId, stamp)
    requires order[k] in at && NamesLatest(rows, at[order[k]], oldId) && rows[at[order[k]]].c.stashId == order[k]
    requires order[k] !in order[..k]
    ensures Emitted(rows, order, at, k + 1, out + [Successor(rows[at[order[k]]].c, newId, stamp)], src + [at[order[k]]],
                    oldId, newId, stamp)
  {
    assert order[..k + 1] == order[..k] + [order[k]];
    assert forall i :: 0 <= i < |out| ==> out[i].stashId in order[..k];
    var more := src + [at[order[k]]];
    assert more[|src|] == at[order[k]];
  }

  lemma EmitNone(rows: seq<Row>, order: seq<Text>, at: map<Text, nat>, k: nat, out: seq<Correction>, src: seq<nat>,
      oldId: Text, newId: Text, stamp: Text -> Text)
    requires k < |order| && Emitted(rows, order, at, k, out, src, oldId, newId, stamp)
    requires order[k] in at && !NamesLatest(rows, at[order[k]], oldId)
    ensures Emitted(rows, order, at, k + 1, out, src, oldId, newId, stamp)
  {
    assert order[..k + 1] == order[..k] + [order[k]];
  }

  lemma EmittedAll(rows: seq<Row>, latest: map<Text, Correction>, order: seq<Text>, at: map<Text, nat>,
      out: seq<Correction>, src: seq<nat>, oldId: Text, newId: Text, stamp: Text -> Text)
    requires Indexed(rows, latest, order, at) && Emitted(rows, order, at, |order|, out, src, oldId, newId, stamp)
    ensures Succeeds(rows, out, src, oldId, newId, stamp)
  {
    forall i: nat | NamesLatest(rows, i, oldId) ensures i in src {
      var s := rows[i].c.stashId;
      LatestUnique(rows, i, at[s]);
      var h :| 0 <= h < |order| && order[h] == s;
    }
  }

  /** The reading loop of successorCorrections. */
  method IndexCorrections(rows: seq<Row>)
    returns (ok: bool, latest: map<Text, Correction>, order: seq<Text>, ghost at: map<Text, nat>)
    ensures ok <==> Decodable(rows)
    ensures ok ==> Indexed(rows, latest, order, at)
  {
    latest, order, at := map[], [], map[];
    for n := 0 to |rows|
      invariant Decodable(rows[..n]) && Indexed(rows[..n], latest, order, at)
    {
      if rows[n].BadRow? {
        return false, latest, order, at;
      }
      if rows[n].Row? && rows[n].c.stashId != [] {
        IndexRow(rows, n, latest, order, at);
        var c := rows[n].c;
        if c.stashId !in latest {
          order := order + [c.stashId];
        }
        latest, at := latest[c.stashId := c], at[c.stashId := n];
      } else {
        SkipRow(rows, n, latest, order, at);
      }
    }
    assert rows[..|rows|] == rows;
    return true, latest, order, at;
  }

  lemma LatestUnique(rows: seq<Row>, i: nat, j: nat)
    requires i < |rows| && j < |rows| && IsLatest(rows, i) && IsLatest(rows, j)
    ensures rows[i].c.stashId == rows[j].c.stashId ==> i == j
  {}

  // ---- after the successors are appended ----

  function AppendAll(rows: seq<Row>, cs: seq<Correction>): seq<Row> {
    rows + seq(|cs|, i requires 0 <= i < |cs| => Row(cs[i]))
  }

  /** After the successors are appended no stash's latest correction names the old ID: where one did,
      the latest is now a successor that names the new one. The rows that were there are still there,
      and every stash without a successor keeps its latest. */
  lemma CorrectionsAreRenamed(rows: seq<Row>, out: seq<Correction>, src: seq<nat>, oldId: Text, newId: Text, stamp: Text -> Text)
    requires oldId != newId && Succeeds(rows, out, src, oldId, newId, stamp)
    ensures var after := AppendAll(rows, out);
      && rows <= after && NamesNowhere(after, oldId)
      && (forall i :: 0 <= i < |rows| && IsLatest(rows, i) && rows[i].c.delivery != oldId ==> IsLatest(after, i))
      && (forall i: nat :: NamesLatest(rows, i, oldId) ==>
            exists j: nat :: NamesLatest(after, j, newId) && Corrects(after[j].c, rows[i].c, stamp))
  {
    var after := AppendAll(rows, out);
    forall i | 0 <= i < |after| && IsLatest(after, i) ensures after[i].c.delivery != oldId {
      if i < |rows| {
        LatestOfPrefix(rows, out, i);
        Superseded(rows, out, src, oldId, newId, stamp, i);
      }
    }
    forall i | 0 <= i < |rows| && IsLatest(rows, i) && rows[i].c.delivery != oldId ensures IsLatest(after, i) {
      forall j | i < j < |after| && after[j].Row? ensures after[j].c.stashId != after[i].c.stashId {
        if j >= |rows| {
          LatestUnique(rows, i, src[j - |rows|]);
        }
      }
    }
    forall i: nat | NamesLatest(rows, i, oldId)
      ensures exists j: nat :: NamesLatest(after, j, newId) && Corrects(after[j].c, rows[i].c, stamp)
    {
      var k :| 0 <= k < |src| && src[k] == i;
      SuccessorIsLatest(rows, out, src, oldId, newId, stamp, k);
    }
  }

  /** The correction is of the same stash, with the other members stamped. */
  predicate Corrects(c: Correction, was: Correction, stamp: Text -> Text) {
    c.stashId == was.stashId && c.rest == stamp(was.rest)
  }

  /** An appended successor is its stash's latest. */
  lemma SuccessorIsLatest(rows: seq<Row>, out: seq<Correction>, src: seq<nat>, oldId: Text, newId: Text, stamp: Text -> Text, k: nat)
    requires Succeeds(rows, out, src, oldId, newId, stamp) && k < |out|
    ensures NamesLatest(AppendAll(rows, out), |rows| + k, newId)
    ensures Corrects(AppendAll(rows, out)[|rows| + k].c, rows[src[k]].c, stamp)
  {
    var after := AppendAll(rows, out);
    assert after[|rows| + k] == Row(out[k]);
    forall j | |rows| + k < j < |after| && after[j].Row? ensures after[j].c.stashId != out[k].stashId {
      assert after[j] == Row(out[j - |rows|]);
    }
  }

  lemma LatestOfPrefix(rows: seq<Row>, out: seq<Correction>, i: nat)
    requires i < |rows| && IsLatest(AppendAll(rows, out), i)
    ensures IsLatest(rows, i)
  {
    var after := AppendAll(rows, out);
    assert forall j :: 0 <= j < |rows| ==> after[j] == rows[j];
  }

  /** A row that named the old ID is no longer its stash's latest. */
  lemma Superseded(rows: seq<Row>, out: seq<Correction>, src: seq<nat>, oldId: Text, newId: Text, stamp: Text -> Text, i: nat)
    requires i < |rows| && IsLatest(rows, i) && Succeeds(rows, out, src, oldId, newId, stamp)
    ensures rows[i].c.delivery == oldId ==> !IsLatest(AppendAll(rows, out), i)
  {
    if rows[i].c.delivery == oldId {
      assert NamesLatest(rows, i, oldId);
      var k :| 0 <= k < |src| && src[k] == i;
      assert AppendAll(rows, out)[|rows| + k] == Row(out[k]);
    }
  }

  /** A second run has no successor to append. */
  lemma NothingLeft(rows: seq<Row>, out: seq<Correction>, src: seq<nat>, oldId: Text, newId: Text, stamp: Text -> Text)
    requires NamesNowhere(rows, oldId) && Succeeds(rows, out, src, oldId, newId, stamp)
    ensures out == []
  {
    assert out != [] ==> NamesLatest(rows, src[0], oldId);
  }

  // ---- the transaction ----

  class StashArchive {
    /** The two files; None when a file does not exist. */
    var stash: Option<seq<Line>>
    var corrections: Option<seq<Row>>

    ghost predicate Renamed(stash0: Option<seq<Line>>, rows0: Option<seq<Row>>, oldId: Text, newId: Text,
        marshal: (Text, Text) -> Text, stamp: Text -> Text)
      reads this
    {
      && stash == (match stash0 case None => None case Some(ls) => Some(RewriteLines(ls, oldId, newId, marshal)))
      && exists out, src :: Succeeds(RowsOf(rows0), out, src, oldId, newId, stamp) && corrections == Appended(rows0, out)
    }

    /** propagateAdoptToStashArchiveLocked: both files are snapshotted, then rewritten; any failure
        rolls back. `restored` is whether every restoring write succeeded. */
    method Propagate(oldId: Text, newId: Text, marshal: (Text, Text) -> Text, stamp: Text -> Text)
      returns (ok: bool, restored: bool)
      modifies this
      ensures ok ==> Renamed(old(stash), old(corrections), oldId, newId, marshal, stamp)
      ensures !ok && restored ==> stash == old(stash) && corrections == old(corrections)
    {
      var readable: bool := *;
      if !readable {
        return false, true;
      }
      var stash0, rows0 := stash, corrections;
      if stash0.Some? {
        var rewritten, changed := RewriteHarvested(stash0.value, oldId, newId, marshal);
        if rewritten.None? {
          restored := Rollback(stash0, rows0);
          return false, restored;
        }
        if changed {
          var written: bool := *;
          if !written {
            restored := Rollback(stash0, rows0);
            return false, restored;
          }
          stash := rewritten;
        } else {
          Unchanged(stash0.value, oldId, newId, marshal);
        }
      }
      var successors, src := SuccessorCorrections(RowsOf(rows0), oldId, newId, stamp);
      if successors.None? {
        restored := Rollback(stash0, rows0);
        return false, restored;
      }
      var out := successors.value;
      for i := 0 to |out|
        invariant corrections == Appended(rows0, out[..i])
        invariant stash == (match stash0 case None => None case Some(ls) => Some(RewriteLines(ls, oldId, newId, marshal)))
      {
        var appended: bool := *;
        if !appended {
          restored := Rollback(stash0, rows0);
          return false, restored;
        }
        AppendStep(RowsOf(rows0), out, i);
        corrections := Some(RowsOf(corrections) + [Row(out[i])]);
      }
      assert out[..|out|] == out;
      return true, true;
    }

    /** Rollback: each file gets its snapshot back, or is removed when there was none. */
    method Rollback(stash0: Option<seq<Line>>, rows0: Option<seq<Row>>) returns (restored: bool)
      modifies this
      ensures restored ==> stash == stash0 && corrections == rows0
    {
      var first: bool, second: bool := *, *;
      if first {
        stash := stash0;
      }
      if second {
        corrections := rows0;
      }
      return first && second;
    }
  }

  function RowsOf(rows: Option<seq<Row>>): seq<Row> {
    if rows.Some? then rows.value else []
  }

  /** The corrections file after appending; it is created by the first append. */
  function Appended(rows: Option<seq<Row>>, out: seq<Correction>): Option<seq<Row>> {
    if out == [] then rows else Some(AppendAll(RowsOf(rows), out))
  }

  lemma AppendStep(rows: seq<Row>, out: seq<Correction>, i: nat)
    requires i < |out|
    ensures AppendAll(rows, out[..i]) + [Row(out[i])] == AppendAll(rows, out[..i + 1])
    ensures AppendAll(rows, []) == rows
  {}

  lemma Unchanged(ls: seq<Line>, oldId: Text, newId: Text, marshal: (Text, Text) -> Text)
    requires forall i :: 0 <= i < |ls| ==> !(Examined(ls[i], oldId) && Harvests(ls[i], oldId))
    ensures RewriteLines(ls, oldId, newId, marshal) == ls
  {}
}
