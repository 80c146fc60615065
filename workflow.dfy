/** The two scripts as step sequences over a workspace: the HTML file's contents and
    the trace of what the run does that can be observed from outside (screenshots,
    reply fields printed, the file write, warnings, which exception handler reports). */
module Workflow {
  import opened RuleBlock
  import opened PatchGate

  /** The `except` clause that reports a failure. */
  datatype Handler =
    | GeneralHandler    // `except Exception` (the agent's only handler; the test script's outer one)
    | JsonHandler       // the test script's `except json.JSONDecodeError`
    | KeyErrorHandler   // the test script's `except KeyError` around the patch step

  datatype Event =
    | ScreenshotBefore
    | Show(key: string, value: string)   // a reply field printed
    | WriteFile(text: string)            // the HTML file overwritten
    | Reload
    | ScreenshotAfter
    | Warn(selector: string)             // "could not find the selector"
    | Report(handler: Handler)
    | Success                            // the test script's success message
    | CloseBrowser

  /** The reply fields the agent prints: the diagnosis, when the object has one. */
  function AgentShown(fields: map<string, string>): seq<Event> {
    if DiagnosisKey in fields then [Show(DiagnosisKey, fields[DiagnosisKey])] else []
  }

  /** The reply fields the test script prints, one statement per key, up to the first
      key the object lacks. */
  function TestShown(fields: map<string, string>): seq<Event> {
    if DiagnosisKey !in fields then []
    else if SelectorKey !in fields then [Show(DiagnosisKey, fields[DiagnosisKey])]
    else if BlockKey !in fields then
      [Show(DiagnosisKey, fields[DiagnosisKey]), Show(SelectorKey, fields[SelectorKey])]
    else
      [Show(DiagnosisKey, fields[DiagnosisKey]), Show(SelectorKey, fields[SelectorKey]),
       Show(BlockKey, fields[BlockKey])]
  }

  /** What run_agent does, given the reply and the file it read. */
  function AgentEvents(reply: Reply, doc: string): seq<Event>
    requires Admissible(reply)
  {
    var shown := if reply.Object? then AgentShown(reply.fields) else [];
    var tail :=
      match Decide(reply, doc)
      case Patched(_, text) => [WriteFile(text), Reload, ScreenshotAfter]
      case NoMatch(sel) => [Warn(sel)]
      case _ => [Report(GeneralHandler)];
    [ScreenshotBefore] + shown + tail + [CloseBrowser]
  }

  /** What the test script does from the request on, given the reply and the file it re-reads. */
  function TestEvents(reply: Reply, doc: string): seq<Event>
    requires Admissible(reply)
  {
    var shown := if reply.Object? then TestShown(reply.fields) else [];
    var tail :=
      match Decide(reply, doc)
      case Patched(_, text) => [WriteFile(text), Success]
      case NoMatch(sel) => [Warn(sel)]
      case ParseFailure => [Report(JsonHandler)]
      case _ => [Report(GeneralHandler)];
    shown + tail
  }

  /** Every print of the test script is of a key the object has, in lookup order, and
      it stops right before the first key the object lacks. */
  lemma TestShownPrefix(fields: map<string, string>)
    ensures |TestShown(fields)| <= |Keys|
    ensures forall i :: 0 <= i < |TestShown(fields)| ==>
              Keys[i] in fields && TestShown(fields)[i] == Show(Keys[i], fields[Keys[i]])
    ensures |TestShown(fields)| < |Keys| ==> Keys[|TestShown(fields)|] !in fields
  {
  }

  /** Where a file write can sit in a trace pre + shown + tail + post whose other parts hold none. */
  lemma WriteInTail(pre: seq<Event>, shown: seq<Event>, tail: seq<Event>, post: seq<Event>)
    requires forall ev :: ev in pre + shown + post ==> !ev.WriteFile?
    ensures var ev, n := pre + shown + tail + post, |pre| + |shown|;
            forall i :: 0 <= i < |ev| && ev[i].WriteFile? ==> n <= i < n + |tail| && ev[i] == tail[i - n]
  {
    var ev, n := pre + shown + tail + post, |pre| + |shown|;
    forall i | 0 <= i < |ev| && ev[i].WriteFile?
      ensures n <= i < n + |tail| && ev[i] == tail[i - n]
    {
      assert ev[i] !in pre + shown + post ==> n <= i < n + |tail|;
    }
  }

  /** The agent writes the file at most once, exactly when it patches, and only the
      substitution of the reply's block for every rule block of its selector. */
  lemma AgentWritesOnce(reply: Reply, doc: string)
    requires Admissible(reply)
    ensures var ev := AgentEvents(reply, doc);
            forall i, j :: 0 <= i < |ev| && 0 <= j < |ev| && ev[i].WriteFile? && ev[j].WriteFile? ==> i == j
    ensures var ev := AgentEvents(reply, doc);
            (exists i :: 0 <= i < |ev| && ev[i].WriteFile?) <==> Decide(reply, doc).Patched?
    ensures forall ev :: ev in AgentEvents(reply, doc) && ev.WriteFile? ==>
              reply.Object? && Complete(reply.fields) && HasMatch(doc, reply.fields[SelectorKey])
              && ev.text == Substitute(doc, reply.fields[SelectorKey], reply.fields[BlockKey])
  {
    var shown := if reply.Object? then AgentShown(reply.fields) else [];
    var o := Decide(reply, doc);
    var tail :=
      match o
      case Patched(_, text) => [WriteFile(text), Reload, ScreenshotAfter]
      case NoMatch(sel) => [Warn(sel)]
      case _ => [Report(GeneralHandler)];
    var ev := AgentEvents(reply, doc);
    assert ev == [ScreenshotBefore] + shown + tail + [CloseBrowser];
    WriteInTail([ScreenshotBefore], shown, tail, [CloseBrowser]);
    if o.Patched? {
      assert ev[1 + |shown|].WriteFile?;
    }
    forall e | e in ev && e.WriteFile?
      ensures reply.Object? && Complete(reply.fields) && HasMatch(doc, reply.fields[SelectorKey])
              && e.text == Substitute(doc, reply.fields[SelectorKey], reply.fields[BlockKey])
    {
      var i :| 0 <= i < |ev| && ev[i] == e;
      DecidePatchedIff(reply, doc);
      HasMatchIff(doc, reply.fields[SelectorKey]);
    }
  }

  /** The "after" screenshot is taken exactly when the agent patches, right after the
      file write and the page reload. */
  lemma AgentScreenshotAfterWrite(reply: Reply, doc: string)
    requires Admissible(reply)
    ensures var ev := AgentEvents(reply, doc);
            forall i :: 0 <= i < |ev| && ev[i] == ScreenshotAfter ==>
              2 <= i && ev[i - 2].WriteFile? && ev[i - 1] == Reload
    ensures ScreenshotAfter in AgentEvents(reply, doc) <==> Decide(reply, doc).Patched?
  {
    var ev := AgentEvents(reply, doc);
    var shown := if reply.Object? then AgentShown(reply.fields) else [];
    var n := 1 + |shown|;
    assert forall i :: 1 <= i < n ==> ev[i] == shown[i - 1];
    if Decide(reply, doc).Patched? {
      assert ev[n + 2] == ScreenshotAfter;
    }
  }

  /** The test script writes the file at most once, exactly when it patches, reports
      success exactly then, and writes only the substitution. */
  lemma TestWritesOnce(reply: Reply, doc: string)
    requires Admissible(reply)
    ensures var ev := TestEvents(reply, doc);
            forall i, j :: 0 <= i < |ev| && 0 <= j < |ev| && ev[i].WriteFile? && ev[j].WriteFile? ==> i == j
    ensures var ev := TestEvents(reply, doc);
            (exists i :: 0 <= i < |ev| && ev[i].WriteFile?) <==> Decide(reply, doc).Patched?
    ensures forall ev :: ev in TestEvents(reply, doc) && ev.WriteFile? ==>
              reply.Object? && Complete(reply.fields)
              && ev.text == Substitute(doc, reply.fields[SelectorKey], reply.fields[BlockKey])
    ensures Success in TestEvents(reply, doc) <==> Decide(reply, doc).Patched?
  {
    var shown := if reply.Object? then TestShown(reply.fields) else [];
    var o := Decide(reply, doc);
    var tail :=
      match o
      case Patched(_, text) => [WriteFile(text), Success]
      case NoMatch(sel) => [Warn(sel)]
      case ParseFailure => [Report(JsonHandler)]
      case _ => [Report(GeneralHandler)];
    var ev := TestEvents(reply, doc);
    assert ev == [] + shown + tail + [];
    WriteInTail([], shown, tail, []);
    if o.Patched? {
      assert ev[|shown|].WriteFile?;
    }
    forall e | e in ev && e.WriteFile?
      ensures reply.Object? && Complete(reply.fields)
              && e.text == Substitute(doc, reply.fields[SelectorKey], reply.fields[BlockKey])
    {
      var i :| 0 <= i < |ev| && ev[i] == e;
      DecidePatchedIff(reply, doc);
    }
    assert Success !in shown;
  }

  /** A missing key in the test script: the keys before it are printed, and the
      KeyError then reaches the outer `except Exception`, not the `except KeyError` of
      the patch step, since every key is read before that step is entered. */
  lemma TestMissingKeyReport(reply: Reply, doc: string, k: string)
    requires Admissible(reply) && Decide(reply, doc) == MissingKey(k)
    ensures reply.Object?
    ensures TestEvents(reply, doc) == TestShown(reply.fields) + [Report(GeneralHandler)]
    ensures forall ev :: ev in TestShown(reply.fields) ==> ev.Show? && ev.key in reply.fields && ev.key != k
    ensures Report(KeyErrorHandler) !in TestEvents(reply, doc)
  {
  }

  /** No reply and no file makes the test script's KeyError handler report. This records
      a modelling decision rather than deriving it: all three keys are read by the prints
      before the inner `try` (vibefix_test.py:77-80 against line 83), so `TestEvents`
      sends a missing key to the outer handler and nothing later can raise KeyError. */
  lemma TestKeyErrorHandlerUnreachable(reply: Reply, doc: string)
    requires Admissible(reply)
    ensures Report(KeyErrorHandler) !in TestEvents(reply, doc)
  {
    var shown := if reply.Object? then TestShown(reply.fields) else [];
    assert Report(KeyErrorHandler) !in shown;
  }

  /** The HTML file and what has happened so far. */
  class Workspace {
    var html: string
    var trace: seq<Event>

    constructor (initial: string)
      ensures html == initial && trace == []
    {
      html := initial;
      trace := [];
    }

    /** run_agent: screenshot, read the file, decide on the reply, patch, reload and
        take the second screenshot; every failure is reported by the one handler. */
    method RunAgent(reply: Reply) returns (o: Outcome)
      requires Admissible(reply)
      modifies this
      ensures o == Decide(reply, old(html))
      ensures html == (if o.Patched? then o.text else old(html))
      ensures trace == old(trace) + AgentEvents(reply, old(html))
    {
      trace := trace + [ScreenshotBefore];
      var code := html;
      match reply {
        case RequestFailed =>
          o := RequestFailure;
        case NotJson =>
          o := ParseFailure;
        case NotAnObject =>
          o := NotObject;
        case Object(fields) =>
          if DiagnosisKey !in fields {
            o := MissingKey(DiagnosisKey);
          } else {
            trace := trace + [Show(DiagnosisKey, fields[DiagnosisKey])];
            if SelectorKey !in fields {
              o := MissingKey(SelectorKey);
            } else if BlockKey !in fields {
              o := MissingKey(BlockKey);
            } else {
              var sel, block := fields[SelectorKey], fields[BlockKey];
              if HasMatch(code, sel) {
                var fixed := Substitute(code, sel, block);
                html := fixed;
                trace := trace + [WriteFile(fixed), Reload, ScreenshotAfter];
                o := Patched(sel, fixed);
              } else {
                trace := trace + [Warn(sel)];
                o := NoMatch(sel);
              }
            }
          }
      }
      if !o.Patched? && !o.NoMatch? {
        trace := trace + [Report(GeneralHandler)];
      }
      trace := trace + [CloseBrowser];
    }

    /** The test script from the request on: print the three fields, re-read the file,
        patch it on a match; a JSON error has its own handler, everything else reaches
        the outer one. */
    method RunTestScript(reply: Reply) returns (o: Outcome)
      requires Admissible(reply)
      modifies this
      ensures o == Decide(reply, old(html))
      ensures html == (if o.Patched? then o.text else old(html))
      ensures trace == old(trace) + TestEvents(reply, old(html))
    {
      match reply {
        case RequestFailed =>
          o := RequestFailure;
          trace := trace + [Report(GeneralHandler)];
        case NotJson =>
          o := ParseFailure;
          trace := trace + [Report(JsonHandler)];
        case NotAnObject =>
          o := NotObject;
          trace := trace + [Report(GeneralHandler)];
        case Object(fields) =>
          if DiagnosisKey !in fields {
            o := MissingKey(DiagnosisKey);
          } else {
            trace := trace + [Show(DiagnosisKey, fields[DiagnosisKey])];
            if SelectorKey !in fields {
              o := MissingKey(SelectorKey);
            } else {
              trace := trace + [Show(SelectorKey, fields[SelectorKey])];
              if BlockKey !in fields {
                o := MissingKey(BlockKey);
              } else {
                trace := trace + [Show(BlockKey, fields[BlockKey])];
                var sel, block := fields[SelectorKey], fields[BlockKey];
                var original := html;
                if HasMatch(original, sel) {
                  var fixed := Substitute(original, sel, block);
                  html := fixed;
                  trace := trace + [WriteFile(fixed), Success];
                  o := Patched(sel, fixed);
                } else {
                  trace := trace + [Warn(sel)];
                  o := NoMatch(sel);
                }
              }
            }
          }
          if o.MissingKey? {
            trace := trace + [Report(GeneralHandler)];
          }
      }
    }
  }
}
