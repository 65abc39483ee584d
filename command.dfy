/**
 * `Command.parse` (command.rb): a simplified form of the IRC message grammar of
 * section 2.3.1 of RFC 1459. An optional `:sender[!user] ` prefix and an optional
 * `:trailing argument` are sliced out of a working copy of the line; what
 * remains is split on whitespace into the command name and its arguments.
 *
 * The two regular expressions are hand-coded: `/\A:.+?\s/` for the sender
 * prefix (see SenderEnd) and `/:.+\Z/` for the trailing argument (see
 * TrailingAt). Ruby raises NoMethodError when `slice!` finds no match and
 * `[1..-1]` is sent to `nil`; those two failures are the ParseError values.
 */
module IrcCommand {
  import opened Wrappers
  import opened Text

  /** The two ways `parse` raises. */
  datatype ParseError =
    | UnterminatedSender   // line starts with ':' but `/\A:.+?\s/` does not match
    | UnmatchedTrailing    // line holds ':' but `/:.+\Z/` does not match

  /** The attributes of a parsed command (`nick`, `user`, `name`, `arguments`); `None` is `nil`. */
  datatype Parsed = Parsed(nick: Option<string>, user: Option<string>, name: Option<string>, arguments: seq<string>)

  // ---------------------------------------------------------------------------
  // The sender prefix: `/\A:.+?\s/`

  /**
   * Index of the whitespace that ends the sender prefix of a line starting with
   * ':'. The lazy `.+?` takes at least one character, and `.` does not match a
   * line feed, so the match needs a character other than "\n" at index 1 and
   * then stops at the first whitespace from index 2 on.
   */
  function SenderEnd(s: string): (r: Option<nat>)
    ensures r.Some? ==> 2 <= r.value < |s| && s[1] != '\n' && IsSpace(s[r.value])
                        && forall j :: 2 <= j < r.value ==> !IsSpace(s[j])
    ensures r.None? <==> |s| < 2 || s[1] == '\n' || NoSpace(s[2..])
  {
    if |s| < 2 || s[1] == '\n' then None
    else
      var n := WordLength(s[2..]);
      assert forall j :: 0 <= j < n ==> s[2..][j] == s[2 + j];
      if 2 + n < |s| then Some(2 + n)
      else
        assert forall j :: 0 <= j < |s[2..]| ==> !IsSpace(s[2..][j]);
        None
  }

  const Bang := Sep("!", NoSpaces)

  function StripAll(ts: seq<string>): (r: seq<string>)
    ensures |r| == |ts|
    ensures forall i :: 0 <= i < |ts| ==> r[i] == Strip(ts[i])
  {
    seq(|ts|, i requires 0 <= i < |ts| => Strip(ts[i]))
  }

  /**
   * `parse_sender_info!` on a value: the stripped `!`-separated tokens of the
   * prefix (`None` when the line does not start with ':') and the line with
   * the prefix and the whitespace after it sliced off.
   */
  function SliceSender(s: string): (r: Result<(Option<seq<string>>, string), ParseError>)
    ensures (s == [] || s[0] != ':') <==> r.Ok? && r.value.0.None?
    ensures r.Ok? && r.value.0.None? ==> r.value.1 == s
    ensures r.Err? ==> r.error == UnterminatedSender
  {
    if s == [] || s[0] != ':' then Ok((None, s))
    else
      var e := SenderEnd(s);
      if e.None? then Err(UnterminatedSender)
      else SlicedAt(s, e.value)
  }

  /** The sender stage's result when the prefix ends at `k`. */
  function SlicedAt(s: string, k: nat): (r: Result<(Option<seq<string>>, string), ParseError>)
    requires k < |s|
    ensures r.Ok? && r.value.0.Some?
  {
    Ok((Some(PrefixTokens(s, k)), s[k + 1..]))
  }

  /** The prefix between ':' and the whitespace at `k`, with that whitespace, split on '!' and stripped. */
  function PrefixTokens(s: string, k: nat): seq<string>
    requires k < |s|
  {
    StripAll(Split(s[1..k + 1], Bang))
  }

  // ---------------------------------------------------------------------------
  // The trailing argument: `/:.+\Z/`

  /** Where `\Z` can match: the end of the string, or before a final line feed. */
  function LineEnd(s: string): (e: nat)
    ensures e <= |s| && |s| - 1 <= e
    ensures e == |s| - 1 <==> s != [] && s[|s| - 1] == '\n'
  {
    if s != [] && s[|s| - 1] == '\n' then |s| - 1 else |s|
  }

  /**
   * `/:.+\Z/` matches starting at `i`: a ':' followed by at least one
   * character and no line feed up to where `\Z` matches.
   */
  predicate TrailingAt(s: string, i: nat) {
    i < |s| && s[i] == ':' && i + 1 < LineEnd(s) && '\n' !in s[i + 1..LineEnd(s)]
  }

  /** The leftmost match of `/:.+\Z/` at or after `i`. */
  function TrailingFrom(s: string, i: nat): (r: Option<nat>)
    ensures r.Some? ==> i <= r.value && TrailingAt(s, r.value)
                        && forall j :: i <= j < r.value ==> !TrailingAt(s, j)
    ensures r.None? ==> forall j :: i <= j < |s| ==> !TrailingAt(s, j)
    decreases |s| - i
  {
    if i >= |s| then None
    else if TrailingAt(s, i) then Some(i)
    else TrailingFrom(s, i + 1)
  }

  /**
   * `parse_trailing_arg!` on a value: the text after the ':' of the leftmost
   * match (`None` when the line holds no ':') and the line with the match
   * sliced out; a final line feed stays in the line.
   */
  function SliceTrailing(s: string): (r: Result<(Option<string>, string), ParseError>)
    ensures r.Err? <==> ':' in s && TrailingFrom(s, 0).None?
    ensures r.Err? ==> r.error == UnmatchedTrailing
    ensures r.Ok? && r.value.0.Some? ==> r.value.0.value != [] && '\n' !in r.value.0.value
    ensures r.Ok? && r.value.0.None? ==> r.value.1 == s
  {
    if ':' !in s then Ok((None, s))
    else
      match TrailingFrom(s, 0)
      case None => Err(UnmatchedTrailing)
      case Some(i) => Ok((Some(s[i + 1..LineEnd(s)]), s[..i] + s[LineEnd(s)..]))
  }

  // ---------------------------------------------------------------------------
  // The whole parse

  /** Element `i` of a list, `nil` past its end (Ruby's multiple assignment and `[]`). */
  function At(ts: seq<string>, i: nat): Option<string> {
    if i < |ts| then Some(ts[i]) else None
  }

  /**
   * `nick` and `user` from the prefix tokens: the first two tokens, swapped
   * when there is no second one, so that a lone token becomes the `user`.
   */
  function NickUser(tokens: Option<seq<string>>): (Option<string>, Option<string>) {
    var nick0 := if tokens.Some? then At(tokens.value, 0) else None;
    var user0 := if tokens.Some? then At(tokens.value, 1) else None;
    if user0.None? then (user0, nick0) else (nick0, user0)
  }

  /**
   * `Command.parse` on values: slice the sender, swap `nick` and `user` when
   * `user` is `nil`, slice the trailing argument, split the rest on whitespace
   * into the name and the middle arguments, append the trailing argument.
   */
  function Parse(line: string): Result<Parsed, ParseError>
  {
    match SliceSender(line)
    case Err(e) => Err(e)
    case Ok((tokens, rest)) =>
      var (nick, user) := NickUser(tokens);
      match SliceTrailing(rest)
      case Err(e) => Err(e)
      case Ok((trailing, cmd)) =>
        var words := SplitWs(cmd);
        var middle := if words == [] then [] else words[1..];
        Ok(Parsed(nick, user, At(words, 0), middle + (if trailing.Some? then [trailing.value] else [])))
  }

  // ---------------------------------------------------------------------------
  // The objects: the working copy that `slice!` changes and the command record

  /** The `dup` of the caller's line that `parse_sender_info!` and `parse_trailing_arg!` cut down. */
  class WorkingLine {
    var text: string

    constructor (line: string)
      ensures text == line
    {
      text := line;
    }

    /** `parse_sender_info!`: slices the prefix off and returns its tokens; on failure nothing is sliced. */
    method SliceSenderInfo() returns (r: Result<Option<seq<string>>, ParseError>)
      modifies this
      ensures r.Ok? ==> SliceSender(old(text)) == Ok((r.value, text))
      ensures r.Err? ==> SliceSender(old(text)) == Err(r.error) && text == old(text)
    {
      var sliced := SliceSender(text);
      if sliced.Err? {
        return Err(sliced.error);
      }
      text := sliced.value.1;
      r := Ok(sliced.value.0);
    }

    /** `parse_trailing_arg!`: slices the trailing match out and returns its text after the ':'. */
    method SliceTrailingArg() returns (r: Result<Option<string>, ParseError>)
      modifies this
      ensures r.Ok? ==> SliceTrailing(old(text)) == Ok((r.value, text))
      ensures r.Err? ==> SliceTrailing(old(text)) == Err(r.error) && text == old(text)
    {
      var sliced := SliceTrailing(text);
      if sliced.Err? {
        return Err(sliced.error);
      }
      text := sliced.value.1;
      r := Ok(sliced.value.0);
    }
  }

  /** The record `Command.new` builds; `initialize` assigns each given attribute. */
  class Command {
    var nick: Option<string>
    var user: Option<string>
    var name: Option<string>
    var arguments: seq<string>

    constructor (nick: Option<string>, user: Option<string>, name: Option<string>, arguments: seq<string>)
      ensures this.nick == nick && this.user == user && this.name == name && this.arguments == arguments
    {
      this.nick := nick;
      this.user := user;
      this.name := name;
      this.arguments := arguments;
    }

    function Value(): Parsed
      reads this
    {
      Parsed(nick, user, name, arguments)
    }
  }

  /** `Command.parse`: works on a fresh copy of the line and builds a fresh record. */
  method ParseCommand(line: string) returns (r: Result<Command, ParseError>)
    ensures r.Err? ==> Parse(line) == Err(r.error)
    ensures r.Ok? ==> fresh(r.value) && Parse(line) == Ok(r.value.Value())
  {
    var cmd := new WorkingLine(line);
    var sender := cmd.SliceSenderInfo();
    if sender.Err? {
      return Err(sender.error);
    }
    var tokens := sender.value;
    ghost var rest := cmd.text;
    var nick := if tokens.Some? then At(tokens.value, 0) else None;
    var user := if tokens.Some? then At(tokens.value, 1) else None;
    if user.None? {
      nick, user := user, nick;
    }
    assert (nick, user) == NickUser(tokens);
    var trailing := cmd.SliceTrailingArg();
    if trailing.Err? {
      return Err(trailing.error);
    }
    var words := SplitWs(cmd.text);
    var args := if words == [] then [] else words[1..];
    if trailing.value.Some? {
      args := args + [trailing.value.value];
    }
    ParseOk(line, tokens, rest, trailing.value, cmd.text, nick, user, words, args);
    var c := new Command(nick, user, At(words, 0), args);
    r := Ok(c);
  }

  /** `Parse` once both slicing stages have succeeded. */
  lemma ParseOk(line: string, tokens: Option<seq<string>>, rest: string, trailing: Option<string>, cmd: string,
                nick: Option<string>, user: Option<string>, words: seq<string>, args: seq<string>)
    requires SliceSender(line) == Ok((tokens, rest))
    requires SliceTrailing(rest) == Ok((trailing, cmd))
    requires (nick, user) == NickUser(tokens) && words == SplitWs(cmd)
    requires args == (if words == [] then [] else words[1..]) + (if trailing.Some? then [trailing.value] else [])
    ensures Parse(line) == Ok(Parsed(nick, user, At(words, 0), args))
  {
  }

  /**
   * What every successful parse gives: the swap leaves no `nick` without a
   * `user`; the name is one word; every argument is non-empty and one line;
   * with no name, at most the trailing argument remains.
   */
  lemma ParseAttributes(line: string)
    requires Parse(line).Ok?
    ensures var p := Parse(line).value;
            (p.nick.Some? ==> p.user.Some?)
            && (p.name.Some? ==> IsWord(p.name.value))
            && (forall i :: 0 <= i < |p.arguments| ==> p.arguments[i] != [] && '\n' !in p.arguments[i])
            && (p.name.None? ==> |p.arguments| <= 1)
  {
    var (tokens, rest) := SliceSender(line).value;
    var (trailing, cmd) := SliceTrailing(rest).value;
    var words := SplitWs(cmd);
    var middle := if words == [] then [] else words[1..];
    var args := middle + (if trailing.Some? then [trailing.value] else []);
    forall i | 0 <= i < |args| ensures args[i] != [] && '\n' !in args[i] {
      if i < |middle| {
        assert args[i] == words[i + 1] && IsWord(words[i + 1]);
        assert forall j :: 0 <= j < |args[i]| ==> args[i][j] != '\n';
      }
    }
  }

  // ---------------------------------------------------------------------------
  // Lines built from their parts, and what parsing them gives back

  /** The sender prefix of a line: none, one token, or `nick!user`. */
  datatype Sender = Anonymous | Single(token: string) | Pair(nickname: string, username: string)

  /** Text `strip` leaves alone and `split('!')` does not cut. */
  predicate IsSenderToken(t: string) {
    forall i :: 0 <= i < |t| ==> !IsStripped(t[i]) && t[i] != '!'
  }

  predicate ValidSender(sender: Sender) {
    match sender
    case Anonymous => true
    case Single(t) => t != [] && IsSenderToken(t)
    case Pair(n, u) => IsSenderToken(n) && IsSenderToken(u)
  }

  function SenderText(sender: Sender): string {
    match sender
    case Anonymous => ""
    case Single(t) => ":" + t + " "
    case Pair(n, u) => ":" + n + "!" + u + " "
  }

  function TrailingText(trailing: Option<string>): string {
    if trailing.Some? then " :" + trailing.value else ""
  }

  /** A line in the documented layout `[:sender[!user] ]name[ arg ...][ :trailing]`. */
  function Format(sender: Sender, words: seq<string>, trailing: Option<string>): string {
    SenderText(sender) + (Join(words, " ") + TrailingText(trailing))
  }

  /** The tokens `parse_sender_info!` returns for a prefix. */
  function SenderTokens(sender: Sender): Option<seq<string>> {
    match sender
    case Anonymous => None
    case Single(t) => Some([t])
    case Pair(n, u) => Some([n, u])
  }

  /** The expected attributes: a single token lands in `user`, not `nick`. */
  function Expected(sender: Sender, words: seq<string>, trailing: Option<string>): Parsed {
    var nick := match sender case Pair(n, _) => Some(n) case _ => None;
    var user := match sender case Anonymous => None case Single(t) => Some(t) case Pair(_, u) => Some(u);
    Parsed(nick, user, At(words, 0),
           (if words == [] then [] else words[1..]) + (if trailing.Some? then [trailing.value] else []))
  }

  predicate NoColon(t: string) {
    ':' !in t
  }

  /**
   * Round trip: a line assembled from a sender, colon-free words and a
   * trailing argument without line feeds parses back to exactly those parts,
   * with a single-token prefix in `user`.
   */
  lemma ParseFormat(sender: Sender, words: seq<string>, trailing: Option<string>)
    requires ValidSender(sender)
    requires AllWords(words) && forall i :: 0 <= i < |words| ==> NoColon(words[i])
    requires trailing.Some? ==> trailing.value != [] && '\n' !in trailing.value
    ensures Parse(Format(sender, words, trailing)) == Ok(Expected(sender, words, trailing))
  {
    var line := Format(sender, words, trailing);
    var middle := Join(words, " ");
    var body := middle + TrailingText(trailing);
    var cmd := if trailing.Some? then middle + " " else middle;
    assert ':' !in middle by {
      JoinAvoids(words, " ", ':');
    }
    FormatSender(sender, words, trailing);
    SliceTrailingFormat(middle, trailing);
    CommandWords(words, trailing.Some?);
    ExpectedNickUser(sender, words, trailing);
    var e := Expected(sender, words, trailing);
    ParseOk(line, SenderTokens(sender), body, trailing, cmd, e.nick, e.user, SplitWs(cmd), e.arguments);
  }

  /** The sender stage of a formatted line: the prefix's tokens, and the rest of the line. */
  lemma FormatSender(sender: Sender, words: seq<string>, trailing: Option<string>)
    requires ValidSender(sender) && ':' !in Join(words, " ")
    ensures SliceSender(Format(sender, words, trailing))
         == Ok((SenderTokens(sender), Join(words, " ") + TrailingText(trailing)))
  {
    var middle := Join(words, " ");
    var body := middle + TrailingText(trailing);
    assert body == [] || body[0] != ':' by {
      if middle != [] {
        assert body[0] == middle[0];
      } else if trailing.Some? {
        assert body == " :" + trailing.value;
      }
    }
    SliceSenderFormat(sender, body);
  }

  /** The words joined by spaces, with or without the space left before a sliced trailing argument, split back into the words. */
  lemma CommandWords(words: seq<string>, spaced: bool)
    requires AllWords(words)
    ensures SplitWs(if spaced then Join(words, " ") + " " else Join(words, " ")) == words
  {
    var middle := Join(words, " ");
    if spaced {
      SplitWsJoin(words, " ");
      SplitWsBlank(" ");
    } else {
      SplitWsJoin(words, []);
      assert middle + [] == middle;
    }
    assert words + [] == words;
  }

  lemma ExpectedNickUser(sender: Sender, words: seq<string>, trailing: Option<string>)
    requires ValidSender(sender)
    ensures var e := Expected(sender, words, trailing);
            (e.nick, e.user) == NickUser(SenderTokens(sender))
  {
  }

  /** The sender stage on a formatted prefix: the tokens, and the body left intact. */
  lemma SliceSenderFormat(sender: Sender, body: string)
    requires ValidSender(sender)
    requires body == [] || body[0] != ':'
    ensures SliceSender(SenderText(sender) + body) == Ok((SenderTokens(sender), body))
  {
    match sender
    case Anonymous =>
      assert SenderText(sender) + body == body;
    case Single(t) =>
      SliceSingle(t, body);
    case Pair(n, u) =>
      SlicePair(n, u, body);
  }

  /** The sender stage once the end of the prefix is known. */
  lemma SliceSenderAt(s: string, k: nat)
    requires s != [] && s[0] == ':'
    requires SenderEnd(s) == Some(k)
    ensures k < |s| && SliceSender(s) == SlicedAt(s, k)
  {
  }

  /** A prefix `:w ` whose `w` holds no whitespace ends at the space after `w`. */
  lemma SenderLayout(w: string, body: string)
    requires w != [] && NoSpace(w)
    ensures var s := ":" + w + " " + body;
            SliceSender(s) == Ok((Some(StripAll(Split(w + " ", Bang))), body))
  {
    var s := ":" + w + " " + body;
    var k := |w| + 1;
    assert s[1..k + 1] == w + " " && s[k + 1..] == body;
    assert s[1] != '\n' && IsSpace(s[k]) && forall j :: 2 <= j < k ==> !IsSpace(s[j]) by {
      forall j | 1 <= j < k ensures s[j] == w[j - 1] && !IsSpace(s[j]) {
        assert s[j] == (w + " ")[j - 1];
      }
    }
    SenderEndIs(s, k);
    SliceSenderAt(s, k);
  }

  lemma SliceSingle(t: string, body: string)
    requires t != [] && IsSenderToken(t)
    ensures SliceSender(":" + t + " " + body) == Ok((Some([t]), body))
  {
    SenderLayout(t, body);
    SplitSingle(t);
    StripSpaced(t);
    assert StripAll([t + " "]) == [t];
  }

  lemma SplitSingle(t: string)
    requires IsSenderToken(t)
    ensures Split(t + " ", Bang) == [t + " "]
  {
    assert '!' !in t + " " by {
      assert forall i :: 0 <= i < |t + " "| ==> (t + " ")[i] != '!';
    }
    CutLast(t + " ", Bang, []);
    assert [] + (t + " ") == t + " ";
  }

  lemma SlicePair(n: string, u: string, body: string)
    requires IsSenderToken(n) && IsSenderToken(u)
    ensures SliceSender(":" + n + "!" + u + " " + body) == Ok((Some([n, u]), body))
  {
    var w := n + ("!" + u);
    assert NoSpace(w) by {
      assert forall j :: 0 <= j < |n| ==> w[j] == n[j];
      assert forall j :: |n| < j < |w| ==> w[j] == u[j - |n| - 1];
    }
    assert ":" + n + "!" + u + " " + body == ":" + w + " " + body;
    assert w + " " == n + ("!" + (u + " "));
    SplitPair(n, u);
    SenderLayout(w, body);
    StripPair(n, u);
  }

  lemma StripPair(n: string, u: string)
    requires IsSenderToken(n) && IsSenderToken(u)
    ensures StripAll([n, u + " "]) == [n, u]
  {
    StripClean(n);
    StripSpaced(u);
    StripAllPair(n, u + " ");
  }

  lemma StripAllPair(a: string, b: string)
    ensures StripAll([a, b]) == [Strip(a), Strip(b)]
  {
    var ts := [a, b];
    var r := StripAll(ts);
    assert ts[0] == a && ts[1] == b;
    assert |r| == 2 && r[0] == Strip(a) && r[1] == Strip(b);
    assert r == [r[0], r[1]];
  }

  /** `strip` leaves a sender token alone. */
  lemma StripClean(t: string)
    requires IsSenderToken(t)
    ensures Strip(t) == t
  {
    assert t == [] || !IsStripped(t[0]);
    assert StripLeft(t) == t;
    assert t == [] || !IsStripped(t[|t| - 1]);
  }

  /** `strip` drops the space after a sender token. */
  lemma StripSpaced(t: string)
    requires IsSenderToken(t)
    ensures Strip(t + " ") == t
  {
    assert t == [] || (!IsStripped(t[0]) && !IsStripped(t[|t| - 1]));
    StripTrimmed(t, " ");
  }

  lemma SplitPair(n: string, u: string)
    requires IsSenderToken(n) && IsSenderToken(u)
    ensures Split(n + ("!" + (u + " ")), Bang) == [n, u + " "]
  {
    var t := "!" + (u + " ");
    assert '!' !in n by {
      assert forall i :: 0 <= i < |n| ==> n[i] != '!';
    }
    assert '!' !in u + " " by {
      assert forall i :: 0 <= i < |u + " "| ==> (u + " ")[i] != '!';
    }
    assert t[..1] == "!";
    CutPiece(n, t, Bang, []);
    assert t[1..] == u + " ";
    CutLast(u + " ", Bang, []);
    assert [] + n == n && [] + (u + " ") == u + " ";
  }

  /** The sender match ends at `k` when index 1 is not a line feed and `k` is the first whitespace after it. */
  lemma SenderEndIs(s: string, k: nat)
    requires 2 <= k < |s| && s[1] != '\n' && IsSpace(s[k])
    requires forall j :: 2 <= j < k ==> !IsSpace(s[j])
    ensures SenderEnd(s) == Some(k)
  {
    var t := s[2..];
    assert forall j :: 0 <= j < k - 2 ==> t[j] == s[j + 2];
    assert t[k - 2] == s[k];
    WordLengthIs(t, k - 2);
  }

  /** The trailing stage on `middle :trailing`: the trailing text, and the middle with one space after it. */
  lemma SliceTrailingFormat(middle: string, trailing: Option<string>)
    requires ':' !in middle
    requires trailing.Some? ==> trailing.value != [] && '\n' !in trailing.value
    ensures SliceTrailing(middle + TrailingText(trailing))
         == Ok((trailing, if trailing.Some? then middle + " " else middle))
  {
    if trailing.None? {
      assert middle + TrailingText(trailing) == middle;
    } else {
      var t := trailing.value;
      var s := middle + " :" + t;
      assert s == middle + TrailingText(trailing);
      var i := |middle| + 1;
      assert s[i] == ':';
      assert s[|s| - 1] == t[|t| - 1];
      assert t[|t| - 1] in t;
      assert LineEnd(s) == |s|;
      assert s[i + 1..] == t;
      assert TrailingAt(s, i);
      assert forall j :: 0 <= j < i ==> s[j] != ':' by {
        forall j | 0 <= j < i ensures s[j] != ':' {
          if j < |middle| { assert s[j] == middle[j]; }
        }
      }
      TrailingFromIs(s, 0, i);
      SliceTrailingAt(s, i);
      assert s[..i] == middle + " ";
      assert s[..i] + s[|s|..] == middle + " ";
      assert s[i + 1..LineEnd(s)] == t;
      assert SliceTrailing(s) == Ok((Some(t), middle + " "));
    }
  }

  /** The trailing stage once the leftmost match is known. */
  lemma SliceTrailingAt(s: string, i: nat)
    requires TrailingFrom(s, 0) == Some(i)
    ensures SliceTrailing(s) == Ok((Some(s[i + 1..LineEnd(s)]), s[..i] + s[LineEnd(s)..]))
  {
    assert s[i] in s;
  }

  /** The leftmost trailing match from `j` is at `i` when `i` matches and no ':' lies between. */
  lemma {:induction false} TrailingFromIs(s: string, j: nat, i: nat)
    requires j <= i && TrailingAt(s, i)
    requires forall k :: j <= k < i ==> s[k] != ':'
    ensures TrailingFrom(s, j) == Some(i)
    decreases i - j
  {
    if j < i {
      assert !TrailingAt(s, j);
      TrailingFromIs(s, j + 1, i);
    }
  }

  /** A line that does not start with ':' has neither `nick` nor `user`, and never fails on the prefix. */
  lemma NoPrefixNoSender(line: string)
    requires line == [] || line[0] != ':'
    ensures Parse(line) != Err(UnterminatedSender)
    ensures Parse(line).Ok? ==> Parse(line).value.nick.None? && Parse(line).value.user.None?
  {
  }

  /**
   * A line without any ':' parses to its whitespace-separated tokens: the
   * first is the name, the others are the arguments in order, none empty.
   */
  lemma NoColonLine(line: string)
    requires ':' !in line
    ensures Parse(line) == Ok(Parsed(None, None, At(SplitWs(line), 0),
                                     if SplitWs(line) == [] then [] else SplitWs(line)[1..]))
    ensures forall i :: 0 <= i < |Parse(line).value.arguments| ==> IsWord(Parse(line).value.arguments[i])
  {
    assert line == [] || line[0] != ':' by {
      if line != [] { assert line[0] in line; }
    }
    var words := SplitWs(line);
    var middle: seq<string> := if words == [] then [] else words[1..];
    assert middle + [] == middle;
    ParseOk(line, None, line, None, line, None, None, words, middle);
  }

  /** `parse` raises on the prefix exactly when the line starts with ':' and `/\A:.+?\s/` finds no whitespace to stop at. */
  lemma UnterminatedSenderFails(line: string)
    ensures Parse(line) == Err(UnterminatedSender)
        <==> line != [] && line[0] == ':' && (|line| < 2 || line[1] == '\n' || NoSpace(line[2..]))
  {
  }

  /** `parse` raises when the only ':' after the prefix is the last character: `.+` needs a character after it. */
  lemma DanglingColonFails(line: string)
    requires line != [] && line[0] != ':'
    requires line[|line| - 1] == ':' && ':' !in line[..|line| - 1]
    ensures Parse(line) == Err(UnmatchedTrailing)
  {
    assert line[|line| - 1] in line;
    forall k | 0 <= k < |line| ensures !TrailingAt(line, k) {
      if k < |line| - 1 {
        assert line[..|line| - 1][k] == line[k];
      }
    }
  }

}
