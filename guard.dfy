/** The "Spanish leaked through" guard: a reply whose lower-cased text
    contains one of five Spanish words gets a fixed warning in front. */
module LanguageGuard {
  import opened Text

  /** The Spanish words the handler looks for, in its order. */
  const SpanishTerms: seq<string> := ["usted", "respuesta", "mensaje", "puede", "hola"]

  const WarningPrefix: string := "**Aviso:** resposta corrigida automaticamente.\n\n"

  /** Array.prototype.some over the terms with includes as the test: some
      term of terms occurs in s. */
  function AnyTermIn(terms: seq<string>, s: string): (b: bool)
    ensures b <==> exists k :: 0 <= k < |terms| && Contains(s, terms[k])
  {
    if terms == [] then
      false
    else if Contains(s, terms[0]) then
      true
    else
      var b := AnyTermIn(terms[1..], s);
      assert forall k :: 1 <= k < |terms| ==> terms[k] == terms[1..][k - 1];
      b
  }

  /** The reply reads as Spanish: its lower-cased text contains one of the
      five terms. */
  predicate Detected(reply: string)
    ensures Detected(reply) <==> exists k :: 0 <= k < |SpanishTerms| && Contains(Lower(reply), SpanishTerms[k])
  {
    AnyTermIn(SpanishTerms, Lower(reply))
  }

  /** The guard: the warning is put in front of a reply that reads as
      Spanish, and any other reply is passed on as it is. */
  function Guard(reply: string): (r: string)
    ensures r == WarningPrefix + reply
        <==> exists k :: 0 <= k < |SpanishTerms| && Contains(Lower(reply), SpanishTerms[k])
    ensures r == reply
        <==> !exists k :: 0 <= k < |SpanishTerms| && Contains(Lower(reply), SpanishTerms[k])
  {
    assert |WarningPrefix + reply| > |reply|;
    if Detected(reply) then WarningPrefix + reply else reply
  }

  /** The guard ignores case: a reply is warned about exactly when its
      lower-cased text would be. */
  lemma GuardIgnoresCase(reply: string)
    ensures Detected(Lower(reply)) <==> Detected(reply)
    ensures Guard(reply) == WarningPrefix + reply
        <==> Guard(Lower(reply)) == WarningPrefix + Lower(reply)
  {
    LowerIdempotent(reply);
  }

  /** A term written in capitals is still found: any reply containing
      "HOLA" gets the warning. */
  lemma ShoutedTermDetected(p: string, q: string)
    ensures Guard(p + "HOLA" + q) == WarningPrefix + (p + "HOLA" + q)
  {
    LowerConcat(p + "HOLA", q);
    LowerConcat(p, "HOLA");
    assert Lower("HOLA") == "hola";
    ContainsInfix(Lower(p), "hola", Lower(q));
    assert SpanishTerms[4] == "hola";
  }

  /** Only the trailing part reads as Spanish: what the warning is put in
      front of is still detected afterwards. */
  lemma DetectedAfterPrefix(p: string, reply: string)
    requires Detected(reply)
    ensures Detected(p + reply)
  {
    var k :| 0 <= k < |SpanishTerms| && Contains(Lower(reply), SpanishTerms[k]);
    LowerConcat(p, reply);
    ContainsAfterPrefix(Lower(p), Lower(reply), SpanishTerms[k]);
  }

  /** The guard flags a reply and does not repair it: a guarded Spanish
      reply passed through the guard again gets a second warning. */
  lemma GuardNotIdempotent(reply: string)
    requires Detected(reply)
    ensures Guard(Guard(reply)) == WarningPrefix + WarningPrefix + reply
  {
    DetectedAfterPrefix(WarningPrefix, reply);
  }

  /** A reply in which none of 'u', 'h' and 'j' occurs, in either case, is
      never detected: every term holds one of these letters. */
  lemma NotDetectedWithoutMarkers(reply: string)
    requires 'u' !in reply && 'U' !in reply
    requires 'h' !in reply && 'H' !in reply
    requires 'j' !in reply && 'J' !in reply
    ensures !Detected(reply)
  {
    var low := Lower(reply);
    LowerMissing(reply, 'u', 'U');
    LowerMissing(reply, 'h', 'H');
    LowerMissing(reply, 'j', 'J');
    MissingCharNotContained(low, "usted", 'u');
    MissingCharNotContained(low, "respuesta", 'u');
    MissingCharNotContained(low, "mensaje", 'j');
    MissingCharNotContained(low, "puede", 'u');
    MissingCharNotContained(low, "hola", 'h');
  }

  /** An empty reply stays empty: no term occurs in it. */
  lemma GuardEmpty()
    ensures Guard([]) == []
  {
    NotDetectedWithoutMarkers([]);
  }
}
