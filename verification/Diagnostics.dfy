/**
 Diagnostic events, and what the analyses read from them.
 */
module Diagnostics {
  import opened Common
  import opened ScVals

  // `contractId` is the strkey text of the emitting contract, if the event names one.
  datatype DiagnosticEvent = DiagnosticEvent(
    inSuccessfulCall: bool,
    contractId: Option<string>,
    topics: seq<ScVal>,
    data: ScVal)

  // Symbols and strings have a text, other values do not.
  function TopicText(v: ScVal): Option<string> {
    match v
    case Symbol(s) => Some(s)
    case Str(s) => Some(s)
    case _ => None
  }

  // The texts of the topics that have one, in order.
  function Topics(vs: seq<ScVal>): seq<string> {
    if vs == [] then []
    else
      var rest := Topics(vs[1..]);
      match TopicText(vs[0])
      case Some(s) => [s] + rest
      case None => rest
  }

  predicate IsFailureKeyword(topic: string) {
    var lower := Lower(topic);
    || lower == "error"
    || lower == "panic"
    || lower == "revert"
    || lower == "hosterror"
    || Contains(lower, "failed")
    || Contains(lower, "trap")
  }

  // An event inside a failing frame, with an error payload, or with a failure keyword as a topic.
  predicate IsFailure(e: DiagnosticEvent) {
    || !e.inSuccessfulCall
    || e.data.Error?
    || exists i :: 0 <= i < |Topics(e.topics)| && IsFailureKeyword(Topics(e.topics)[i])
  }

  /* The same said in other words. */

  /** The texts of a list are those of its parts, in order; symbols and strings have one and the rest has none. */
  lemma {:induction false} TopicsInOrder(a: seq<ScVal>, v: ScVal, b: seq<ScVal>)
    ensures Topics([]) == [] && Topics(a + b) == Topics(a) + Topics(b)
    ensures Topics([v]) == if v.Symbol? then [v.sym] else if v.Str? then [v.text] else []
  {
    assert [v][1..] == [];
    if a == [] {
      assert a + b == b;
    } else {
      assert (a + b)[1..] == a[1..] + b;
      TopicsInOrder(a[1..], v, b);
    }
  }

  lemma {:induction false} TopicsAre(vs: seq<ScVal>, s: string)
    ensures s in Topics(vs) <==> Symbol(s) in vs || Str(s) in vs
  {
    if vs != [] {
      TopicsAre(vs[1..], s);
      assert vs == [vs[0]] + vs[1..];
    }
  }

  ghost predicate HasPart(s: string, part: string) {
    exists before, after :: s == before + part + after
  }

  lemma PartIsContained(s: string, part: string)
    ensures HasPart(s, part) <==> Contains(s, part)
  {
    if HasPart(s, part) {
      var before, after :| s == before + part + after;
      assert OccursAt(s, part, |before|);
    }
    if Contains(s, part) {
      var i :| 0 <= i <= |s| - |part| && OccursAt(s, part, i);
      assert s == s[..i] + part + s[i + |part|..];
    }
  }

  // A failing frame, an error as data, or a symbol or string topic that is a keyword in any case or has one as a part.
  ghost predicate IsReportedFailure(e: DiagnosticEvent) {
    || !e.inSuccessfulCall
    || (exists err :: e.data == Error(err))
    || exists s :: (Symbol(s) in e.topics || Str(s) in e.topics) && IsReported(Lower(s))
  }

  ghost predicate IsReported(lower: string) {
    lower in {"error", "panic", "revert", "hosterror"} || HasPart(lower, "failed") || HasPart(lower, "trap")
  }

  /** What the analyses take for a failure. */
  lemma FailureMeans(e: DiagnosticEvent)
    ensures IsFailure(e) <==> IsReportedFailure(e)
  {
    hide IsReported, IsFailureKeyword, Topics;
    forall s ensures IsFailureKeyword(s) <==> IsReported(Lower(s)) {
      KeywordMeans(s);
    }
    forall s ensures s in Topics(e.topics) <==> Symbol(s) in e.topics || Str(s) in e.topics {
      TopicsAre(e.topics, s);
    }
    if i :| 0 <= i < |Topics(e.topics)| && IsFailureKeyword(Topics(e.topics)[i]) {
      assert Topics(e.topics)[i] in Topics(e.topics);
    }
    if s :| (Symbol(s) in e.topics || Str(s) in e.topics) && IsReported(Lower(s)) {
      assert s in Topics(e.topics);
    }
  }

  lemma KeywordMeans(s: string)
    ensures IsFailureKeyword(s) <==> IsReported(Lower(s))
  {
    hide Lower, Contains, HasPart;
    PartIsContained(Lower(s), "failed");
    PartIsContained(Lower(s), "trap");
  }
}
