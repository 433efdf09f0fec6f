/**
 * The ledger writer (the loop of `main`). The processed-id set is the only
 * deduplication gate: an id already in it is skipped, any other id is
 * fetched, extracted, classified and appended as one CSV row, and then added
 * to the set. The CSV file is opened for appending; its column header row is
 * written only when the file did not exist beforehand.
 */
module Ledger {
  import opened Wrappers
  import opened Classifier
  import opened Extraction

  /** One CSV row, columns in the file's order: Date, Sender, Subject, Snippet, Outcome. */
  datatype Row = Row(date: string, sender: string, subject: string, snippet: string, outcome: string)

  /** The column header row `writeheader` emits. */
  const HeaderRow := Row("Date", "Sender", "Subject", "Snippet", "Outcome")

  /**
   * The calls into the mail provider and the libraries: fetching a message by
   * id, transport decoding, and HTML-to-text conversion.
   */
  datatype Env = Env(fetch: string -> Message, decode: string -> string, htmlToText: string -> string)

  /**
   * The durable state between runs: the processed-id set and the CSV ledger,
   * `None` when the ledger file does not exist.
   */
  datatype State = State(processed: set<string>, ledger: Option<seq<Row>>)

  /** The ids of a list, as a set. */
  function Elems(ids: seq<string>): set<string>
  {
    set x | x in ids
  }

  /**
   * The ids a run processes, in order: each id that is neither in `seen` nor
   * earlier in the list, at its first occurrence.
   */
  function NewIds(seen: set<string>, ids: seq<string>): (r: seq<string>)
    ensures forall x {:trigger x in r} :: x in r <==> x in ids && x !in seen
    ensures |r| <= |ids|
  {
    if ids == [] then []
    else
      var init, x := ids[..|ids| - 1], ids[|ids| - 1];
      assert ids == init + [x];
      NewIds(seen, init) + if x in seen || x in init then [] else [x]
  }

  /** The row written for a fetched message. */
  function RowFor(id: string, env: Env): Row
  {
    var e := Extract(env.fetch(id), env.decode, env.htmlToText);
    Row(e.date, e.sender, e.subject, e.snippet, Label(Classify(e.body)))
  }

  /** The row writer of a run: fetch, extract and classify each id. */
  function RowWriter(env: Env): string -> Row
  {
    id => RowFor(id, env)
  }

  /** The rows written for a list of ids, one per id, in order. */
  function RowsFor(ids: seq<string>, row: string -> Row): seq<Row>
  {
    seq(|ids|, i requires 0 <= i < |ids| => row(ids[i]))
  }

  /**
   * The ledger as it stands once opened for appending: an existing file keeps
   * its rows as they are, and a file that did not exist holds the header row
   * and nothing else.
   */
  function Opened(ledger: Option<seq<Row>>): (r: seq<Row>)
    ensures ledger.Some? ==> r == ledger.value
    ensures ledger.None? ==> |r| == 1 && r[0] == HeaderRow
  {
    match ledger
    case None => [HeaderRow]
    case Some(rows) => rows
  }

  /**
   * The state one run over `ids` leaves behind, `row` giving the row of each
   * new id. The ledger then exists and only grows: the opened file is kept as
   * a prefix, followed by one row per new id; no processed id is forgotten
   * and every listed id is recorded.
   */
  function RunResult(s: State, ids: seq<string>, row: string -> Row): (r: State)
    ensures r.ledger.Some?
    ensures |r.ledger.value| == |Opened(s.ledger)| + |NewIds(s.processed, ids)|
    ensures r.ledger.value[..|Opened(s.ledger)|] == Opened(s.ledger)
    ensures s.processed <= r.processed && Elems(ids) <= r.processed
  {
    State(s.processed + Elems(ids), Some(Opened(s.ledger) + RowsFor(NewIds(s.processed, ids), row)))
  }

  /**
   * The body of `main`'s loop for a new id: fetch the message, extract its
   * fields, classify its body and lay out the row.
   */
  method FetchRow(id: string, env: Env) returns (r: Row)
    ensures r == RowFor(id, env)
    ensures r.outcome in ["Rejected", "Interview", "Offer", "Unknown/No Decision"]
  {
    var email := ExtractContent(env.fetch(id), env.decode, env.htmlToText);
    var outcome := Classify(email.body);
    r := Row(email.date, email.sender, email.subject, email.snippet, Label(outcome));
  }

  /**
   * The loop of `main`. `fetched` records, in order, the ids whose content was
   * fetched; `processed'` and `ledger'` are what is persisted afterwards.
   */
  method Run(processed: set<string>, ledger: Option<seq<Row>>, ids: seq<string>, env: Env)
    returns (processed': set<string>, ledger': seq<Row>, ghost fetched: seq<string>)
    ensures fetched == NewIds(processed, ids)
    ensures processed' == processed + Elems(ids)
    ensures ledger' == Opened(ledger) + RowsFor(fetched, RowWriter(env))
    ensures RunResult(State(processed, ledger), ids, RowWriter(env)) == State(processed', Some(ledger'))
  {
    var fileExists := ledger.Some?;
    var rows := if fileExists then ledger.value else [];
    if !fileExists {
      rows := rows + [HeaderRow];
    }
    var seen := processed;
    fetched := [];
    for i := 0 to |ids|
      invariant Progress(processed, ledger, ids[..i], seen, fetched, rows, RowWriter(env))
    {
      var id := ids[i];
      assert ids[..i + 1] == ids[..i] + [id];
      if id in seen {
        SkipStep(processed, ledger, ids[..i], id, seen, fetched, rows, RowWriter(env));
        continue;
      }
      var r := FetchRow(id, env);
      AppendStep(processed, ledger, ids[..i], id, seen, fetched, rows, RowWriter(env));
      rows := rows + [r];
      fetched := fetched + [id];
      seen := seen + {id};
    }
    assert ids[..|ids|] == ids;
    processed', ledger' := seen, rows;
  }

  /** What `Run`'s loop keeps after the ids of `prefix`, `row` giving each new id's row. */
  predicate Progress(processed: set<string>, ledger: Option<seq<Row>>, prefix: seq<string>,
                     seen: set<string>, fetched: seq<string>, rows: seq<Row>, row: string -> Row)
  {
    seen == processed + Elems(prefix) && fetched == NewIds(processed, prefix) &&
    rows == Opened(ledger) + RowsFor(fetched, row)
  }

  /** An id already seen changes nothing. */
  lemma SkipStep(processed: set<string>, ledger: Option<seq<Row>>, prefix: seq<string>, id: string,
                 seen: set<string>, fetched: seq<string>, rows: seq<Row>, row: string -> Row)
    requires Progress(processed, ledger, prefix, seen, fetched, rows, row) && id in seen
    ensures Progress(processed, ledger, prefix + [id], seen, fetched, rows, row)
  {
    NewIdsSnoc(processed, prefix, id);
    ElemsSnoc(prefix, id);
  }

  /** A new id is recorded as seen and fetched, and gets its row appended. */
  lemma AppendStep(processed: set<string>, ledger: Option<seq<Row>>, prefix: seq<string>, id: string,
                   seen: set<string>, fetched: seq<string>, rows: seq<Row>, row: string -> Row)
    requires Progress(processed, ledger, prefix, seen, fetched, rows, row) && id !in seen
    ensures Progress(processed, ledger, prefix + [id], seen + {id}, fetched + [id], rows + [row(id)], row)
  {
    NewIdsSnoc(processed, prefix, id);
    ElemsSnoc(prefix, id);
    RowsForSnoc(fetched, id, row);
  }

  /** One more listed id is new exactly when it is neither processed nor listed earlier. */
  lemma NewIdsSnoc(seen: set<string>, ids: seq<string>, x: string)
    ensures NewIds(seen, ids + [x]) == NewIds(seen, ids) + if x in seen || x in ids then [] else [x]
  {
    assert (ids + [x])[..|ids|] == ids;
  }

  /** Appending an id appends its row. */
  lemma RowsForSnoc(ids: seq<string>, id: string, row: string -> Row)
    ensures RowsFor(ids + [id], row) == RowsFor(ids, row) + [row(id)]
  {
  }

  /** The rows for two lists of ids, one after the other. */
  lemma RowsForAppend(a: seq<string>, b: seq<string>, row: string -> Row)
    ensures RowsFor(a + b, row) == RowsFor(a, row) + RowsFor(b, row)
  {
    var whole, pieces := RowsFor(a + b, row), RowsFor(a, row) + RowsFor(b, row);
    assert |whole| == |pieces|;
    forall k | 0 <= k < |whole|
      ensures whole[k] == pieces[k]
    {
      if k < |a| {
        assert (a + b)[k] == a[k];
      } else {
        assert (a + b)[k] == b[k - |a|];
      }
    }
  }

  /** The ids of a list with one more id. */
  lemma ElemsSnoc(ids: seq<string>, x: string)
    ensures Elems(ids + [x]) == Elems(ids) + {x}
  {
  }

  /** The ids of two lists, one after the other. */
  lemma ElemsAppend(a: seq<string>, b: seq<string>)
    ensures Elems(a + b) == Elems(a) + Elems(b)
  {
  }

  /** A run processes each id at most once, even when the list repeats it. */
  lemma {:induction false} NewIdsDistinct(seen: set<string>, ids: seq<string>)
    ensures forall i, j :: 0 <= i < j < |NewIds(seen, ids)| ==> NewIds(seen, ids)[i] != NewIds(seen, ids)[j]
  {
    if ids != [] {
      var init, x := ids[..|ids| - 1], ids[|ids| - 1];
      NewIdsDistinct(seen, init);
      assert x in NewIds(seen, init) ==> x in init;
    }
  }

  /** Index `k` is where `x` first occurs in `ids`. */
  predicate FirstAt(ids: seq<string>, x: string, k: nat)
  {
    k < |ids| && ids[k] == x && x !in ids[..k]
  }

  /** A first occurrence in a list is one in any longer list that starts with it. */
  lemma FirstAtPrefix(init: seq<string>, x: string, y: string, k: nat)
    requires y in init && FirstAt(init + [x], y, k)
    ensures FirstAt(init, y, k)
  {
    var ids := init + [x];
    assert ids[..|init|] == init;
    assert k < |init|;
    assert ids[..k] == init[..k];
  }

  /** A run processes its new ids in the order of their first occurrence in the list. */
  lemma {:induction false} NewIdsInFirstOccurrenceOrder(seen: set<string>, ids: seq<string>)
    ensures forall i, j, ki: nat, kj: nat ::
      (0 <= i < j < |NewIds(seen, ids)| &&
       FirstAt(ids, NewIds(seen, ids)[i], ki) && FirstAt(ids, NewIds(seen, ids)[j], kj)) ==> ki < kj
  {
    if ids != [] {
      var init, x := ids[..|ids| - 1], ids[|ids| - 1];
      assert ids == init + [x];
      var before, after := NewIds(seen, init), NewIds(seen, ids);
      NewIdsInFirstOccurrenceOrder(seen, init);
      forall i, j, ki: nat, kj: nat | 0 <= i < j < |after| && FirstAt(ids, after[i], ki) && FirstAt(ids, after[j], kj)
        ensures ki < kj
      {
        assert after[i] == before[i] && before[i] in before;
        assert after[i] in init;
        FirstAtPrefix(init, x, after[i], ki);
        if j < |before| {
          assert after[j] == before[j] && before[j] in before;
          FirstAtPrefix(init, x, after[j], kj);
        } else {
          assert after[j] == x && x !in init;
          assert ids[..|init|] == init;
          assert kj == |init|;
        }
      }
    }
  }

  /** Processing a list in two pieces, the second against the grown set, is processing it whole. */
  lemma {:induction false} NewIdsAppend(seen: set<string>, a: seq<string>, b: seq<string>)
    ensures NewIds(seen, a + b) == NewIds(seen, a) + NewIds(seen + Elems(a), b)
  {
    if b == [] {
      assert a + b == a;
    } else {
      var init, x := b[..|b| - 1], b[|b| - 1];
      NewIdsAppend(seen, a, init);
      assert (a + b)[..|a + b| - 1] == a + init;
      assert (a + b)[|a + b| - 1] == x;
      assert (x in seen || x in a + init) <==> (x in seen + Elems(a) || x in init);
    }
  }

  /** Ids that are all already processed produce nothing. */
  lemma {:induction false} NewIdsAllSeen(seen: set<string>, ids: seq<string>)
    requires Elems(ids) <= seen
    ensures NewIds(seen, ids) == []
  {
    if ids != [] {
      var init := ids[..|ids| - 1];
      assert Elems(init) <= Elems(ids);
      NewIdsAllSeen(seen, init);
    }
  }

  /** Every listed id ends up in the processed set, and nothing else is added. */
  lemma RunProcessesAll(s: State, ids: seq<string>, row: string -> Row)
    ensures forall x :: x in RunResult(s, ids, row).processed <==> x in s.processed || x in ids
  {
  }

  /**
   * The rows a run appends correspond one to one, in order, to the new ids,
   * which are distinct and were not processed before.
   */
  lemma {:induction false} RunAppendsOneRowPerNewId(s: State, ids: seq<string>, row: string -> Row)
    ensures var added := NewIds(s.processed, ids);
      RunResult(s, ids, row).ledger == Some(Opened(s.ledger) + RowsFor(added, row)) &&
      |RowsFor(added, row)| == |added| &&
      (forall k :: 0 <= k < |added| ==> RowsFor(added, row)[k] == row(added[k])) &&
      (forall x :: x in added <==> x in ids && x !in s.processed) &&
      (forall i, j :: 0 <= i < j < |added| ==> added[i] != added[j]) &&
      (forall i, j, ki: nat, kj: nat ::
        (0 <= i < j < |added| && FirstAt(ids, added[i], ki) && FirstAt(ids, added[j], kj)) ==> ki < kj)
  {
    NewIdsDistinct(s.processed, ids);
    NewIdsInFirstOccurrenceOrder(s.processed, ids);
  }

  /** Running again with the same ids and the resulting state appends no rows and adds no ids. */
  lemma {:induction false} RerunChangesNothing(s: State, ids: seq<string>, row: string -> Row)
    ensures RunResult(RunResult(s, ids, row), ids, row) == RunResult(s, ids, row)
  {
    var s1 := RunResult(s, ids, row);
    NewIdsAllSeen(s1.processed, ids);
    assert RowsFor([], row) == [];
    assert s1.processed + Elems(ids) == s1.processed;
    assert Opened(s1.ledger) + RowsFor([], row) == s1.ledger.value;
  }

  /** Two runs in a row, over `a` and then `b`, leave the state one run over `a + b` leaves. */
  lemma {:induction false} RunsCompose(s: State, a: seq<string>, b: seq<string>, row: string -> Row)
    ensures RunResult(RunResult(s, a, row), b, row) == RunResult(s, a + b, row)
  {
    var na, nb := NewIds(s.processed, a), NewIds(s.processed + Elems(a), b);
    var ra, rb := RowsFor(na, row), RowsFor(nb, row);
    var base := Opened(s.ledger);
    var s1 := RunResult(s, a, row);
    var s2 := RunResult(s1, b, row);
    var whole := RunResult(s, a + b, row);
    assert s2.processed == whole.processed by {
      ElemsAppend(a, b);
    }
    assert s2.ledger == whole.ledger by {
      assert s2.ledger == Some((base + ra) + rb);
      NewIdsAppend(s.processed, a, b);
      RowsForAppend(na, nb, row);
      assert (base + ra) + rb == base + (ra + rb);
    }
  }

  /** No data row looks like the header row: the outcome column never holds "Outcome". */
  lemma {:induction false} DataRowIsNotHeader(id: string, env: Env)
    ensures RowWriter(env)(id) != HeaderRow
  {
    var e := Extract(env.fetch(id), env.decode, env.htmlToText);
    assert Label(Classify(e.body)) != "Outcome";
  }

  /**
   * The header row is written exactly once: starting without a ledger file,
   * after any two runs the ledger holds it at the top and nowhere else.
   */
  lemma {:induction false} HeaderWrittenOnce(processed: set<string>, a: seq<string>, b: seq<string>, env: Env)
    ensures var final := RunResult(RunResult(State(processed, None), a, RowWriter(env)), b, RowWriter(env)).ledger;
      final.Some? && |final.value| > 0 && final.value[0] == HeaderRow &&
      forall k :: 0 < k < |final.value| ==> final.value[k] != HeaderRow
  {
    RunsCompose(State(processed, None), a, b, RowWriter(env));
    var added := NewIds(processed, a + b);
    forall k | 0 <= k < |added|
      ensures RowsFor(added, RowWriter(env))[k] != HeaderRow
    {
      DataRowIsNotHeader(added[k], env);
    }
  }

  /** An existing ledger file gets no header row: only data rows are appended to it. */
  lemma {:induction false} ExistingLedgerGetsNoHeader(rows: seq<Row>, processed: set<string>, ids: seq<string>, env: Env)
    ensures var final := RunResult(State(processed, Some(rows)), ids, RowWriter(env)).ledger.value;
      final[..|rows|] == rows &&
      forall k :: |rows| <= k < |final| ==> final[k] != HeaderRow
  {
    var added := NewIds(processed, ids);
    forall k | 0 <= k < |added|
      ensures RowsFor(added, RowWriter(env))[k] != HeaderRow
    {
      DataRowIsNotHeader(added[k], env);
    }
  }
}
