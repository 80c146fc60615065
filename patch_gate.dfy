/** The gate both scripts put around the substitution: the model's reply must be
    JSON text for an object with the keys `diagnosis`, `css_selector` and
    `full_fixed_css_block` (looked up in that order); the file is rewritten only
    when `pattern.search` finds the selector's rule block. */
module PatchGate {
  import opened RuleBlock

  /** What the call to the model produced, as far as the scripts can see it. */
  datatype Reply =
    | RequestFailed                         // the request raised, or the reply has no text
    | NotJson                               // `json.loads` raises JSONDecodeError
    | NotAnObject                           // valid JSON, but not an object: subscripting it raises TypeError
    | Object(fields: map<string, string>)   // a JSON object with string values

  const DiagnosisKey: string := "diagnosis"
  const SelectorKey: string := "css_selector"
  const BlockKey: string := "full_fixed_css_block"

  /** The keys in the order the scripts subscript the parsed reply. */
  const Keys: seq<string> := [DiagnosisKey, SelectorKey, BlockKey]

  /** How one run ends. */
  datatype Outcome =
    | RequestFailure
    | ParseFailure
    | NotObject
    | MissingKey(key: string)
    | NoMatch(selector: string)
    | Patched(selector: string, text: string)

  predicate Complete(fields: map<string, string>) {
    DiagnosisKey in fields && SelectorKey in fields && BlockKey in fields
  }

  /** A reply whose replacement block `re.sub` inserts verbatim. */
  predicate Admissible(reply: Reply) {
    reply.Object? && BlockKey in reply.fields ==> NoBackslash(reply.fields[BlockKey])
  }

  /** The decision both scripts take on a reply and the current file contents. */
  function Decide(reply: Reply, doc: string): (o: Outcome)
    requires Admissible(reply)
    ensures o.Patched? || o.NoMatch? <==> reply.Object? && Complete(reply.fields)
    ensures o.Patched? || o.NoMatch? ==> o.selector == reply.fields[SelectorKey]
    ensures o.MissingKey? ==> o.key in Keys && reply.Object? && o.key !in reply.fields
  {
    match reply
    case RequestFailed => RequestFailure
    case NotJson => ParseFailure
    case NotAnObject => NotObject
    case Object(fields) =>
      if DiagnosisKey !in fields then MissingKey(DiagnosisKey)
      else if SelectorKey !in fields then MissingKey(SelectorKey)
      else if BlockKey !in fields then MissingKey(BlockKey)
      else
        var sel, block := fields[SelectorKey], fields[BlockKey];
        if HasMatch(doc, sel) then Patched(sel, Substitute(doc, sel, block)) else NoMatch(sel)
  }

  /** The failures before any key is read: each kind of bad reply has its own outcome. */
  lemma DecideParseErrors(reply: Reply, doc: string)
    requires Admissible(reply)
    ensures Decide(reply, doc) == RequestFailure <==> reply.RequestFailed?
    ensures Decide(reply, doc) == ParseFailure <==> reply.NotJson?
    ensures Decide(reply, doc) == NotObject <==> reply.NotAnObject?
  {
  }

  /** The key reported missing is the first key, in lookup order, that the object lacks. */
  lemma DecideMissingKey(reply: Reply, doc: string, k: string)
    requires Admissible(reply)
    ensures Decide(reply, doc) == MissingKey(k) <==>
              reply.Object? && exists i :: 0 <= i < |Keys| && Keys[i] == k && k !in reply.fields
                                        && forall j :: 0 <= j < i ==> Keys[j] in reply.fields
  {
    if reply.Object? {
      var f := reply.fields;
      if Decide(reply, doc) == MissingKey(k) {
        if k == DiagnosisKey {
          assert Keys[0] == k;
        } else if k == SelectorKey {
          assert Keys[1] == k && Keys[0] in f;
        } else {
          assert Keys[2] == k && Keys[0] in f && Keys[1] in f;
        }
      }
      if exists i :: 0 <= i < |Keys| && Keys[i] == k && k !in f && forall j :: 0 <= j < i ==> Keys[j] in f {
        var i :| 0 <= i < |Keys| && Keys[i] == k && k !in f && forall j :: 0 <= j < i ==> Keys[j] in f;
        if i == 1 {
          assert Keys[0] in f;
        } else if i == 2 {
          assert Keys[0] in f && Keys[1] in f;
        }
      }
    }
  }

  /** The file is rewritten exactly when the reply is complete and some rule block of
      the selector occurs in the document; the new text is the substitution of every match. */
  lemma DecidePatchedIff(reply: Reply, doc: string)
    requires Admissible(reply)
    ensures Decide(reply, doc).Patched? <==>
              reply.Object? && Complete(reply.fields)
              && exists i: nat, e: nat :: i <= |doc| && InPattern(doc, reply.fields[SelectorKey], i, e)
    ensures Decide(reply, doc).Patched? ==>
              Decide(reply, doc).text == Substitute(doc, reply.fields[SelectorKey], reply.fields[BlockKey])
  {
    if reply.Object? && Complete(reply.fields) {
      HasMatchIff(doc, reply.fields[SelectorKey]);
    }
  }

  /** A complete reply whose selector has no rule block in the document ends in NoMatch. */
  lemma DecideNoMatchIff(reply: Reply, doc: string)
    requires Admissible(reply)
    ensures Decide(reply, doc).NoMatch? <==>
              reply.Object? && Complete(reply.fields)
              && forall i: nat, e: nat :: i <= |doc| ==> !InPattern(doc, reply.fields[SelectorKey], i, e)
  {
    if reply.Object? && Complete(reply.fields) {
      HasMatchIff(doc, reply.fields[SelectorKey]);
    }
  }

  /** Running again with the same reply on the patched file patches it again and writes
      the same text, provided the new block is itself a rule block for the selector. */
  lemma DecideIdempotent(reply: Reply, doc: string)
    requires Admissible(reply) && Decide(reply, doc).Patched?
    requires IsRuleBlock(reply.fields[BlockKey], reply.fields[SelectorKey])
    ensures Decide(reply, Decide(reply, doc).text) == Decide(reply, doc)
  {
    var sel, block := reply.fields[SelectorKey], reply.fields[BlockKey];
    SubstitutedHasMatch(doc, sel, block);
    SubstituteIdempotent(doc, sel, block);
  }
}
