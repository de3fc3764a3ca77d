/**
 * The changefeed handler `jsonHandler`: a changefeed PUTs a file of
 * newline-delimited JSON records under the name `full_id`; the handler
 * turns each record into one Elasticsearch document write, a DELETE when
 * the row's `after` image is null and a POST (full replace) otherwise, at
 * `<db>/_doc/<id>`.
 *
 * Elasticsearch is modelled as a `SearchIndex` object: the documents it
 * holds, keyed by index and id, and the log of write requests it received.
 * JSON decoding of a line (`json.loads(line)` and the lookups of `key` and
 * `after`) is the parameter `decode`; `None` stands for any exception it
 * raises.
 */
module CdcProjector {
  import opened Wrappers
  import opened Text
  import Utf8
  import opened ChangefeedAddress
  import opened DocumentId

  /** A JSON value as `json.loads` returns it. */
  datatype Json =
    | Null
    | Bool(b: bool)
    | Number(n: real)
    | Str(s: string)
    | Array(items: seq<Json>)
    | Object(members: seq<(string, Json)>)

  /** One changefeed record: the primary-key values and the row after the change. */
  datatype Record = Record(key: seq<string>, after: Json)

  /** A document of one Elasticsearch index. */
  datatype DocRef = DocRef(index: string, id: string)

  /** One write request to Elasticsearch. */
  datatype Write = Delete(target: DocRef) | Post(target: DocRef, body: Json)

  /** What the handler answers: `("OK", 200)`, or an uncaught exception. */
  datatype Outcome = Ok | Failed(failure: Failure)

  /** Where the exception comes from. */
  datatype Failure =
    | UndecodableBody          // `request.data.decode()`: the body is not UTF-8
    | BadRecord(line: nat)     // decoding line `line` (0-based) failed

  /** The writes a batch issues and how the request ends. */
  datatype Response = Response(writes: seq<Write>, outcome: Outcome)

  /** The writes issued for a prefix of the lines, and the line that failed, if one did. */
  datatype Run = Run(writes: seq<Write>, failedAt: Option<nat>)

  /** `'/'.join([index_name, "_doc", es_id])`. */
  function Path(r: DocRef): string
  {
    Join([r.index, "_doc", r.id], '/')
  }

  /** The document a record of table `a` is about. */
  function Target(a: TableAddress, rec: Record): DocRef
  {
    DocRef(a.db, EsId(a.schema, a.table, rec.key))
  }

  /** The write for one record: a DELETE for a null `after`, a POST of `after` otherwise. */
  function WriteFor(a: TableAddress, rec: Record): Write
  {
    if rec.after.Null? then Delete(Target(a, rec)) else Post(Target(a, rec), rec.after)
  }

  /** `request.data.decode().strip().split('\n')`, after the UTF-8 decoding. */
  function Lines(text: string): (lines: seq<string>)
    ensures |lines| >= 1
  {
    Split(Strip(text), '\n')
  }

  /** The `for` loop over the lines. */
  function Project(a: TableAddress, lines: seq<string>, decode: string -> Option<Record>): Run
  {
    if |lines| == 0 then Run([], None)
    else match decode(lines[0])
      case None => Run([], Some(0))
      case Some(rec) =>
        var rest := Project(a, lines[1..], decode);
        var failedAt := if rest.failedAt.Some? then Some(rest.failedAt.value + 1) else None;
        Run([WriteFor(a, rec)] + rest.writes, failedAt)
  }

  /** The whole request. */
  function Ingest(fullId: string, body: seq<Utf8.byte>, decode: string -> Option<Record>): Response
  {
    match ParseAddress(fullId)
    case None => Response([], Ok)
    case Some(a) =>
      match Utf8.Decode(body)
      case None => Response([], Failed(UndecodableBody))
      case Some(text) =>
        var run := Project(a, Lines(text), decode);
        Response(run.writes, if run.failedAt.None? then Ok else Failed(BadRecord(run.failedAt.value)))
  }

  /**
   * The loop writes one write per line, in order, until the first line
   * that does not decode; nothing is written for that line or any after it.
   */
  lemma {:induction false} ProjectSpec(a: TableAddress, lines: seq<string>, decode: string -> Option<Record>)
    ensures var run := Project(a, lines, decode);
      && (run.failedAt.None? ==> |run.writes| == |lines|)
      && (run.failedAt.Some? ==>
        run.failedAt.value < |lines| && |run.writes| == run.failedAt.value
        && decode(lines[run.failedAt.value]).None?)
      && forall k :: 0 <= k < |run.writes| ==>
        decode(lines[k]).Some? && run.writes[k] == WriteFor(a, decode(lines[k]).value)
  {
    if |lines| > 0 && decode(lines[0]).Some? {
      ProjectSpec(a, lines[1..], decode);
      var run := Project(a, lines, decode);
      var rest := Project(a, lines[1..], decode);
      forall k | 1 <= k < |run.writes|
        ensures decode(lines[k]).Some? && run.writes[k] == WriteFor(a, decode(lines[k]).value)
      {
        assert lines[1..][k - 1] == lines[k];
        assert run.writes[k] == rest.writes[k - 1];
      }
    }
  }

  /**
   * The whole request: no writes and `OK` when the file name does not
   * match; no writes and a failure when the body is not UTF-8; otherwise
   * one write per line of the body, in order, up to the first line that
   * does not decode, where the request fails.
   */
  lemma IngestSpec(fullId: string, body: seq<Utf8.byte>, decode: string -> Option<Record>)
    ensures var r := Ingest(fullId, body, decode);
      && (ParseAddress(fullId).None? ==> r == Response([], Ok))
      && (ParseAddress(fullId).Some? && Utf8.Decode(body).None? ==> r == Response([], Failed(UndecodableBody)))
      && (r.outcome == Failed(UndecodableBody) <==> ParseAddress(fullId).Some? && Utf8.Decode(body).None?)
      && (r.outcome.Failed? && r.outcome.failure.BadRecord? ==>
        ParseAddress(fullId).Some? && Utf8.Decode(body).Some?
        && var lines := Lines(Utf8.Decode(body).value);
        r.outcome.failure.line < |lines| && |r.writes| == r.outcome.failure.line
        && decode(lines[r.outcome.failure.line]).None?)
      && (r.outcome.Ok? && ParseAddress(fullId).Some? ==>
        Utf8.Decode(body).Some? && |r.writes| == |Lines(Utf8.Decode(body).value)|)
      && forall k :: 0 <= k < |r.writes| ==>
        ParseAddress(fullId).Some? && Utf8.Decode(body).Some?
        && var lines := Lines(Utf8.Decode(body).value);
        k < |lines| && decode(lines[k]).Some?
        && r.writes[k] == WriteFor(ParseAddress(fullId).value, decode(lines[k]).value)
  {
    if ParseAddress(fullId).Some? && Utf8.Decode(body).Some? {
      ProjectSpec(ParseAddress(fullId).value, Lines(Utf8.Decode(body).value), decode);
    }
  }

  /** What one write does to the documents: POST replaces, DELETE removes. */
  function Apply(docs: map<DocRef, Json>, w: Write): map<DocRef, Json>
  {
    match w
    case Delete(t) => docs - {t}
    case Post(t, body) => docs[t := body]
  }

  /** The writes applied in order. */
  function ApplyAll(docs: map<DocRef, Json>, ws: seq<Write>): map<DocRef, Json>
  {
    if |ws| == 0 then docs else Apply(ApplyAll(docs, ws[..|ws| - 1]), ws[|ws| - 1])
  }

  /** The position of the last write to `t` in `ws`. */
  function LastWriteTo(ws: seq<Write>, t: DocRef): (i: Option<nat>)
    ensures i.Some? ==> i.value < |ws| && ws[i.value].target == t
    ensures i.Some? ==> forall k :: i.value < k < |ws| ==> ws[k].target != t
    ensures i.None? ==> forall k :: 0 <= k < |ws| ==> ws[k].target != t
  {
    if |ws| == 0 then None
    else if ws[|ws| - 1].target == t then Some(|ws| - 1)
    else LastWriteTo(ws[..|ws| - 1], t)
  }

  /** Elasticsearch's documents and the write requests it has received. */
  class SearchIndex {
    var docs: map<DocRef, Json>
    var log: seq<Write>

    constructor(docs0: map<DocRef, Json>)
      ensures docs == docs0 && log == []
    {
      docs := docs0;
      log := [];
    }

    /** `requests.delete(es_url + '/' + es_path)`. */
    method Delete(target: DocRef)
      modifies this
      ensures log == old(log) + [Write.Delete(target)]
      ensures docs == old(docs) - {target}
    {
      log := log + [Write.Delete(target)];
      docs := docs - {target};
    }

    /** `requests.post(es_url + '/' + es_path, json=body)`. */
    method Post(target: DocRef, body: Json)
      modifies this
      ensures log == old(log) + [Write.Post(target, body)]
      ensures docs == old(docs)[target := body]
    {
      log := log + [Write.Post(target, body)];
      docs := docs[target := body];
    }
  }

  /**
   * `jsonHandler(date, full_id)` on the PUT body `body`: the index receives
   * exactly the writes `Ingest` describes, in order, and ends up with their
   * effect on its documents.
   */
  method HandleWrite(es: SearchIndex, fullId: string, body: seq<Utf8.byte>, decode: string -> Option<Record>)
    returns (outcome: Outcome)
    modifies es
    ensures outcome == Ingest(fullId, body, decode).outcome
    ensures es.log == old(es.log) + Ingest(fullId, body, decode).writes
    ensures es.docs == ApplyAll(old(es.docs), Ingest(fullId, body, decode).writes)
  {
    var m := ParseAddress(fullId);
    if m.None? {
      return Ok;
    }
    var text := Utf8.Decode(body);
    if text.None? {
      return Failed(UndecodableBody);
    }
    var failedAt := WriteLines(es, m.value, Lines(text.value), decode);
    outcome := if failedAt.None? then Ok else Failed(BadRecord(failedAt.value));
  }

  /** The `for` loop of the handler: one write per line until a line fails to decode. */
  method WriteLines(es: SearchIndex, a: TableAddress, lines: seq<string>, decode: string -> Option<Record>)
    returns (failedAt: Option<nat>)
    modifies es
    ensures failedAt == Project(a, lines, decode).failedAt
    ensures es.log == old(es.log) + Project(a, lines, decode).writes
    ensures es.docs == ApplyAll(old(es.docs), Project(a, lines, decode).writes)
  {
    ghost var recs: seq<Record> := [];
    var i := 0;
    while i < |lines|
      invariant 0 <= i <= |lines|
      invariant |recs| == i
      invariant forall k :: 0 <= k < i ==> decode(lines[k]) == Some(recs[k])
      invariant es.log == old(es.log) + Writes(a, recs)
      invariant es.docs == ApplyAll(old(es.docs), Writes(a, recs))
    {
      var rec := decode(lines[i]);
      if rec.None? {
        ProjectFailsAt(a, lines, decode, recs);
        return Some(i);
      }
      WriteRecord(es, a, rec.value);
      AppendOne(old(es.log), Writes(a, recs), WriteFor(a, rec.value));
      WritesSnoc(a, recs, rec.value);
      ApplyAllSnoc(old(es.docs), Writes(a, recs), WriteFor(a, rec.value));
      recs := recs + [rec.value];
      i := i + 1;
    }
    ProjectSucceeds(a, lines, decode, recs);
    return None;
  }

  /** The body of the loop for a record that decoded: a DELETE for a null `after`, a POST otherwise. */
  method WriteRecord(es: SearchIndex, a: TableAddress, rec: Record)
    modifies es
    ensures es.log == old(es.log) + [WriteFor(a, rec)]
    ensures es.docs == Apply(old(es.docs), WriteFor(a, rec))
  {
    var target := DocRef(a.db, EsId(a.schema, a.table, rec.key));
    if rec.after.Null? {
      es.Delete(target);
    } else {
      es.Post(target, rec.after);
    }
  }

  /** Appending one more element to a log that already extends `x` by `y`. */
  lemma AppendOne<T>(x: seq<T>, y: seq<T>, w: T)
    ensures x + y + [w] == x + (y + [w])
  {
  }

  /** One more write applies after the others. */
  lemma ApplyAllSnoc(docs: map<DocRef, Json>, ws: seq<Write>, w: Write)
    ensures ApplyAll(docs, ws + [w]) == Apply(ApplyAll(docs, ws), w)
  {
    assert (ws + [w])[..|ws|] == ws;
  }

  /** The writes for a sequence of decoded records, one each, in order. */
  function Writes(a: TableAddress, recs: seq<Record>): seq<Write>
  {
    seq(|recs|, k requires 0 <= k < |recs| => WriteFor(a, recs[k]))
  }

  lemma WritesSnoc(a: TableAddress, recs: seq<Record>, r: Record)
    ensures Writes(a, recs + [r]) == Writes(a, recs) + [WriteFor(a, r)]
  {
  }

  /** `Project` stops at the first line that does not decode, having written the records before it. */
  lemma ProjectFailsAt(a: TableAddress, lines: seq<string>, decode: string -> Option<Record>, recs: seq<Record>)
    requires |recs| < |lines| && decode(lines[|recs|]).None?
    requires forall k :: 0 <= k < |recs| ==> decode(lines[k]) == Some(recs[k])
    ensures Project(a, lines, decode) == Run(Writes(a, recs), Some(|recs|))
  {
    var run := Project(a, lines, decode);
    ProjectSpec(a, lines, decode);
    NoFailureBefore(a, lines, decode, |recs|);
    assert run.writes == Writes(a, recs);
  }

  /** When every line decodes, `Project` writes one write per line and does not fail. */
  lemma ProjectSucceeds(a: TableAddress, lines: seq<string>, decode: string -> Option<Record>, recs: seq<Record>)
    requires |recs| == |lines|
    requires forall k :: 0 <= k < |recs| ==> decode(lines[k]) == Some(recs[k])
    ensures Project(a, lines, decode) == Run(Writes(a, recs), None)
  {
    var run := Project(a, lines, decode);
    ProjectSpec(a, lines, decode);
    NoFailureBefore(a, lines, decode, |recs|);
    assert run.writes == Writes(a, recs);
  }

  /**
   * If the first `i` lines decode, `Project` fails at line `i` at the
   * earliest; if line `i` does not, it fails exactly there.
   */
  lemma NoFailureBefore(a: TableAddress, lines: seq<string>, decode: string -> Option<Record>, i: nat)
    requires i <= |lines|
    requires forall k :: 0 <= k < i ==> decode(lines[k]).Some?
    ensures Project(a, lines, decode).failedAt.Some? ==> Project(a, lines, decode).failedAt.value >= i
    ensures i < |lines| && decode(lines[i]).None? ==> Project(a, lines, decode).failedAt == Some(i)
  {
    ProjectStops(a, lines, decode);
  }

  /** Where `Project` stops: at the first line that does not decode, if there is one. */
  lemma {:induction false} ProjectStops(a: TableAddress, lines: seq<string>, decode: string -> Option<Record>)
    ensures var f := Project(a, lines, decode).failedAt;
      && (f.None? ==> forall k :: 0 <= k < |lines| ==> decode(lines[k]).Some?)
      && (f.Some? ==>
            f.value < |lines| && decode(lines[f.value]).None?
            && forall k :: 0 <= k < f.value ==> decode(lines[k]).Some?)
  {
    if |lines| > 0 && decode(lines[0]).Some? {
      ProjectStops(a, lines[1..], decode);
      forall k | 1 <= k < |lines| ensures lines[k] == lines[1..][k - 1] {
      }
    }
  }

  /** The document at `t`, if there is one. */
  function Lookup(docs: map<DocRef, Json>, t: DocRef): Option<Json>
  {
    if t in docs then Some(docs[t]) else None
  }

  /** What a write leaves at its target: nothing after a DELETE, the body after a POST. */
  function Effect(w: Write): Option<Json>
  {
    if w.Delete? then None else Some(w.body)
  }

  /** The path names the index and the id: splitting it at `/` gives them back. */
  lemma PathSplit(r: DocRef)
    requires '/' !in r.index && '/' !in r.id
    ensures Split(Path(r), '/') == [r.index, "_doc", r.id]
  {
    var parts := [r.index, "_doc", r.id];
    assert forall i :: 0 <= i < |parts| ==> '/' !in parts[i];
    SplitJoin(parts, '/');
  }

  /** So distinct documents have distinct paths. */
  lemma PathInjective(r1: DocRef, r2: DocRef)
    requires '/' !in r1.index && '/' !in r1.id
    requires '/' !in r2.index && '/' !in r2.id
    ensures Path(r1) == Path(r2) <==> r1 == r2
  {
    PathSplit(r1);
    PathSplit(r2);
    if Path(r1) == Path(r2) {
      var p1 := [r1.index, "_doc", r1.id];
      var p2 := [r2.index, "_doc", r2.id];
      assert p1 == p2;
      assert p1[0] == p2[0] && p1[2] == p2[2];
    }
  }

  /**
   * A record's write goes to `<db>/_doc/<id>`: the index is the database
   * named in the file name and the id is the quoted document id.
   */
  lemma TargetPath(a: TableAddress, rec: Record)
    requires IsAddress(a)
    ensures Split(Path(Target(a, rec)), '/') == [a.db, "_doc", EsId(a.schema, a.table, rec.key)]
  {
    WordLacks(a.db, '/');
    EsIdNoSlash(a.schema, a.table, rec.key);
    PathSplit(Target(a, rec));
  }

  /**
   * Within one file, two records address the same document exactly when
   * their key values agree once `-` is deleted from them.
   */
  lemma TargetsCoincide(a: TableAddress, r1: Record, r2: Record)
    requires IsAddress(a)
    ensures Target(a, r1) == Target(a, r2) <==> KeyFields(r1.key) == KeyFields(r2.key)
  {
    EsIdIdentifiesRow(a.schema, a.table, r1.key, a.schema, a.table, r2.key);
  }

  /**
   * One record's write: its document holds `after` afterwards, or is gone
   * when `after` is null, and no other document changes.
   */
  lemma ApplyWriteFor(docs: map<DocRef, Json>, a: TableAddress, rec: Record)
    ensures Lookup(Apply(docs, WriteFor(a, rec)), Target(a, rec)) == if rec.after.Null? then None else Some(rec.after)
    ensures forall t :: t != Target(a, rec) ==> Lookup(Apply(docs, WriteFor(a, rec)), t) == Lookup(docs, t)
  {
  }

  /** Applying the same record twice leaves the documents as applying it once does. */
  lemma ApplyRecordTwice(docs: map<DocRef, Json>, a: TableAddress, rec: Record)
    ensures ApplyAll(docs, [WriteFor(a, rec), WriteFor(a, rec)]) == ApplyAll(docs, [WriteFor(a, rec)])
  {
    var w := WriteFor(a, rec);
    assert [w, w][..1] == [w];
    assert [w][..0] == [];
  }

  /** Deleting a document that is not there changes nothing. */
  lemma DeleteAbsent(docs: map<DocRef, Json>, t: DocRef)
    requires t !in docs
    ensures Apply(docs, Delete(t)) == docs
  {
  }

  /**
   * After a batch of writes, each document holds the effect of the last
   * write to it, or what it held before when no write touched it.
   */
  lemma {:induction false} ApplyAllLastWrite(docs: map<DocRef, Json>, ws: seq<Write>, t: DocRef)
    ensures Lookup(ApplyAll(docs, ws), t) == match LastWriteTo(ws, t)
      case None => Lookup(docs, t)
      case Some(i) => Effect(ws[i])
  {
    if |ws| > 0 && ws[|ws| - 1].target != t {
      ApplyAllLastWrite(docs, ws[..|ws| - 1], t);
    }
  }

  /**
   * For the writes of a batch of records, a document ends up as the last
   * record with its key says: it holds that record's `after`, or is absent
   * when `after` is null.
   */
  lemma BatchLastRecordWins(docs: map<DocRef, Json>, a: TableAddress, recs: seq<Record>, ws: seq<Write>, i: nat)
    requires IsAddress(a)
    requires |ws| == |recs| && forall k :: 0 <= k < |recs| ==> ws[k] == WriteFor(a, recs[k])
    requires i < |recs|
    requires forall j :: i < j < |recs| ==> KeyFields(recs[j].key) != KeyFields(recs[i].key)
    ensures Lookup(ApplyAll(docs, ws), Target(a, recs[i])) == if recs[i].after.Null? then None else Some(recs[i].after)
  {
    var t := Target(a, recs[i]);
    forall j | i < j < |recs| ensures ws[j].target != t {
      TargetsCoincide(a, recs[j], recs[i]);
    }
    assert LastWriteTo(ws, t) == Some(i);
    ApplyAllLastWrite(docs, ws, t);
  }

  /**
   * A body that is empty or only whitespace is one empty line after
   * `strip()` and `split('\n')`, which `json.loads` rejects: the request
   * fails at line 0 and issues no write.
   */
  lemma IngestBlankBody(fullId: string, body: seq<Utf8.byte>, text: string, decode: string -> Option<Record>)
    requires ParseAddress(fullId).Some?
    requires Utf8.Decode(body) == Some(text)
    requires forall k :: 0 <= k < |text| ==> IsSpace(text[k])
    requires decode("").None?
    ensures Lines(text) == [""]
    ensures Ingest(fullId, body, decode) == Response([], Failed(BadRecord(0)))
  {
    SplitNoSeparator("", '\n');
  }
}
