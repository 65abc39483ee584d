/**
 * `MessageResponse` (message_response.rb): a chat message `!command text` is
 * split by `/\A!(.+?)\s(.+)/` and answered by the instance method the command
 * names, provided the command is on the allow-list. Ruby's `send` becomes an
 * explicit map from method names to behaviours: a name on the allow-list that
 * is not in the map is the `NoMethodError` that `respond` rescues.
 */
module ChatDispatch {
  import opened Wrappers
  import opened Text

  /** `SUPPORTED_COMMANDS`. */
  const SupportedCommands: seq<string> := ["reverse", "method_name"]

  /** What `respond` answers when the allowed method does not exist. */
  const NotFound: string := "Command not found!"

  /** The public instance methods `send` can reach by name. */
  datatype Behavior = EchoText | ReverseText

  const Methods: map<string, Behavior> := map["echo" := EchoText, "reverse" := ReverseText]

  /** `respond_to` raises (`nil[1..-1]`) when the message does not match. */
  datatype MalformedMessage = MalformedMessage

  /** An instance: the command and the text, set once by `initialize`. */
  datatype MessageResponse = MessageResponse(command: string, text: string)

  // ---------------------------------------------------------------------------
  // The instance methods

  /** `echo`: the stored text. */
  function Echo(r: MessageResponse): (s: string)
    ensures s == r.text
  {
    r.text
  }

  /** `reverse`: the stored text back to front. */
  function Reversed(r: MessageResponse): (s: string)
    ensures |s| == |r.text|
    ensures forall k :: 0 <= k < |s| ==> s[k] == r.text[|s| - 1 - k]
    ensures Reverse(s) == r.text
  {
    ReverseMirror(r.text);
    ReverseTwice(r.text);
    Reverse(r.text)
  }

  function Invoke(b: Behavior, r: MessageResponse): string {
    match b
    case EchoText => Echo(r)
    case ReverseText => Reversed(r)
  }

  /**
   * `respond`: `nil` unless the command is allowed; then the named method's
   * result, or the rescued message when no method has that name.
   */
  function Respond(r: MessageResponse): (a: Option<string>)
    ensures a.Some? <==> r.command in SupportedCommands
  {
    if r.command in SupportedCommands then
      if r.command in Methods then Some(Invoke(Methods[r.command], r)) else Some(NotFound)
    else None
  }

  // ---------------------------------------------------------------------------
  // The message pattern `/\A!(.+?)\s(.+)/`

  /**
   * The lazy group can end at `k`: it spans `m[1..k]` (at least one character,
   * no line feed since `.` does not match one), `m[k]` is the `\s`, and the
   * greedy `(.+)` has a first character that is not a line feed.
   */
  predicate CommandEndsAt(m: string, k: nat) {
    2 <= k && k + 1 < |m| && IsSpace(m[k]) && m[k + 1] != '\n'
    && forall j :: 1 <= j < k ==> m[j] != '\n'
  }

  /** The first place at or after `k` where the lazy group can end. */
  function CommandEndFrom(m: string, k: nat): (r: Option<nat>)
    ensures r.Some? ==> k <= r.value && CommandEndsAt(m, r.value)
                        && forall j :: k <= j < r.value ==> !CommandEndsAt(m, j)
    ensures r.None? ==> forall j :: k <= j < |m| ==> !CommandEndsAt(m, j)
    decreases |m| - k
  {
    if k >= |m| then None
    else if CommandEndsAt(m, k) then Some(k)
    else CommandEndFrom(m, k + 1)
  }

  /** How far the greedy `(.+)` runs: up to the first line feed. */
  function LineLength(s: string): (n: nat)
    ensures n <= |s|
    ensures forall i :: 0 <= i < n ==> s[i] != '\n'
    ensures n < |s| ==> s[n] == '\n'
  {
    if s == [] || s[0] == '\n' then 0 else 1 + LineLength(s[1..])
  }

  /**
   * `message.match(...)[1..-1]`: the command and the text, or the failure.
   * The command ends at the first whitespace after which a text can start.
   */
  function MatchMessage(m: string): (r: Result<(string, string), MalformedMessage>)
    ensures r.Err? <==> m == [] || m[0] != '!' || forall j :: 2 <= j < |m| ==> !CommandEndsAt(m, j)
    ensures r.Ok? ==> var (c, t) := r.value;
                      c != [] && t != [] && |c| + 2 + |t| <= |m|
                      && m[0] == '!' && m[1..|c| + 1] == c && IsSpace(m[|c| + 1])
                      && m[|c| + 2..|c| + 2 + |t|] == t
                      && (forall i :: 0 <= i < |c| ==> c[i] != '\n')
                      && (forall i :: 0 <= i < |t| ==> t[i] != '\n')
                      && (|c| + 2 + |t| < |m| ==> m[|c| + 2 + |t|] == '\n')
                      && forall j :: 2 <= j < |c| + 1 ==> !CommandEndsAt(m, j)
  {
    if m == [] || m[0] != '!' then Err(MalformedMessage)
    else
      match CommandEndFrom(m, 2)
      case None => Err(MalformedMessage)
      case Some(k) =>
        var rest := m[k + 1..];
        var n := LineLength(rest);
        assert forall i :: 0 <= i < n ==> rest[i] == m[k + 1 + i];
        Ok((m[1..k], rest[..n]))
  }

  /** `MessageResponse.respond_to`: match, build a fresh instance, respond. */
  function RespondTo(m: string): (r: Result<Option<string>, MalformedMessage>)
    ensures r.Err? <==> MatchMessage(m).Err?
  {
    match MatchMessage(m)
    case Err(e) => Err(e)
    case Ok((c, t)) => Ok(Respond(MessageResponse(c, t)))
  }

  // ---------------------------------------------------------------------------
  // Properties

  /** The leftmost end from `j` is `k` when `k` qualifies and nothing between does. */
  lemma {:induction false} CommandEndFromIs(m: string, j: nat, k: nat)
    requires j <= k && CommandEndsAt(m, k)
    requires forall i :: j <= i < k ==> !CommandEndsAt(m, i)
    ensures CommandEndFrom(m, j) == Some(k)
    decreases k - j
  {
    if j < k {
      CommandEndFromIs(m, j + 1, k);
    }
  }

  /** The greedy group stops exactly at the first line feed. */
  lemma {:induction false} LineLengthIs(s: string, n: nat)
    requires n <= |s|
    requires forall i :: 0 <= i < n ==> s[i] != '\n'
    requires n < |s| ==> s[n] == '\n'
    ensures LineLength(s) == n
  {
    if n > 0 {
      LineLengthIs(s[1..], n - 1);
    }
  }

  /**
   * Round trip: `!command text` with a whitespace-free command and a text
   * without line feeds splits back into exactly that command and text,
   * whatever further lines follow.
   */
  lemma MatchFormatted(c: string, t: string, more: string)
    requires c != [] && NoSpace(c)
    requires t != [] && forall i :: 0 <= i < |t| ==> t[i] != '\n'
    requires more == [] || more[0] == '\n'
    ensures MatchMessage("!" + c + " " + t + more) == Ok((c, t))
  {
    var m := "!" + c + " " + t + more;
    var k := |c| + 1;
    assert forall j :: 1 <= j < k ==> m[j] == c[j - 1];
    assert m[k] == ' ' && m[k + 1] == t[0];
    assert CommandEndsAt(m, k);
    CommandEndFromIs(m, 2, k);
    var rest := m[k + 1..];
    assert rest == t + more;
    LineLengthIs(rest, |t|);
    assert m[1..k] == c;
    assert rest[..|t|] == t;
  }

  /** `respond_to` on a formatted message answers what `respond` answers for its parts. */
  lemma RespondToFormatted(c: string, t: string)
    requires c != [] && NoSpace(c)
    requires t != [] && forall i :: 0 <= i < |t| ==> t[i] != '\n'
    ensures RespondTo("!" + c + " " + t) == Ok(Respond(MessageResponse(c, t)))
  {
    MatchFormatted(c, t, []);
    assert "!" + c + " " + t + [] == "!" + c + " " + t;
  }

  /** `reverse` answers the text reversed: same length, and reversing it again gives the text. */
  lemma RespondReverse(t: string)
    ensures Respond(MessageResponse("reverse", t)).Some?
    ensures var a := Respond(MessageResponse("reverse", t)).value;
            |a| == |t| && Reverse(a) == t
            && forall k :: 0 <= k < |a| ==> a[k] == t[|t| - 1 - k]
  {
    assert "reverse" in SupportedCommands && "reverse" in Methods;
  }

  /** `method_name` is allowed but names no method: the rescued message. */
  lemma RespondMethodName(t: string)
    ensures Respond(MessageResponse("method_name", t)) == Some(NotFound)
  {
    assert "method_name" in SupportedCommands;
    assert "method_name" !in Methods;
  }

  /** A command outside the allow-list, `echo` among them, is answered with `nil`. */
  lemma RespondUnsupported(c: string, t: string)
    requires c !in SupportedCommands
    ensures Respond(MessageResponse(c, t)) == None
  {
  }

  /** `echo` is a method but not allowed, so it never answers. */
  lemma EchoNeverAnswers(t: string)
    ensures Respond(MessageResponse("echo", t)) == None
    ensures Echo(MessageResponse("echo", t)) == t
  {
    assert SupportedCommands[0] != "echo";
    assert SupportedCommands[1] != "echo";
  }

  /** Every answer is one of the two outcomes: a reversal of the text or the rescued message. */
  lemma RespondOutcomes(r: MessageResponse)
    ensures Respond(r).Some? ==> Respond(r).value == Reversed(r) || Respond(r).value == NotFound
    ensures Respond(r).Some? && Respond(r).value != NotFound ==> r.command == "reverse"
  {
  }

  /** A message that does not start with '!' raises. */
  lemma NoBangFails(m: string)
    requires m == [] || m[0] != '!'
    ensures RespondTo(m).Err?
  {
  }
}
