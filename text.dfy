/**
 * The parts of Ruby's `String` that the scripts rely on, over `seq<char>`:
 * whitespace splitting (`split` with no argument or `' '`), splitting on a
 * separator pattern (`split(/:\s?/)`, `split('!')`, ...), `strip`, ASCII case
 * mapping (`downcase`, `upcase`, `capitalize`), `reverse`, `join` and the
 * decimal rendering of `"#{n}"` / `format("%d")`.
 */
module Text {

  // ---------------------------------------------------------------------------
  // Characters

  /** Ruby's ASCII whitespace (`\s`, and the awk-style `split`): space, \t, \n, \v, \f, \r. */
  predicate IsSpace(c: char) {
    c == ' ' || c == '\t' || c == '\n' || c == '\U{B}' || c == '\U{C}' || c == '\r'
  }

  /** The characters `strip` removes: whitespace and NUL. */
  predicate IsStripped(c: char) {
    IsSpace(c) || c == '\0'
  }

  predicate NoSpace(s: string) {
    forall i :: 0 <= i < |s| ==> !IsSpace(s[i])
  }

  /** A non-empty run of non-whitespace characters: what whitespace splitting yields. */
  predicate IsWord(s: string) {
    s != [] && NoSpace(s)
  }

  function Lower(c: char): (d: char)
    ensures IsSpace(d) <==> IsSpace(c)
    ensures !('A' <= d <= 'Z')
  {
    if 'A' <= c <= 'Z' then (c as int + 32) as char else c
  }

  function Upper(c: char): (d: char)
    ensures IsSpace(d) <==> IsSpace(c)
    ensures !('a' <= d <= 'z')
  {
    if 'a' <= c <= 'z' then (c as int - 32) as char else c
  }

  /** `String#downcase`, ASCII letters only. */
  function Downcase(s: string): (r: string)
    ensures |r| == |s|
    ensures forall i :: 0 <= i < |s| ==> r[i] == Lower(s[i])
  {
    seq(|s|, i requires 0 <= i < |s| => Lower(s[i]))
  }

  /** `String#upcase`, ASCII letters only. */
  function Upcase(s: string): (r: string)
    ensures |r| == |s|
    ensures forall i :: 0 <= i < |s| ==> r[i] == Upper(s[i])
  {
    seq(|s|, i requires 0 <= i < |s| => Upper(s[i]))
  }

  /** `String#capitalize`: first character upper case, the rest lower case. */
  function Capitalize(w: string): (r: string)
    ensures |r| == |w|
  {
    if w == [] then [] else [Upper(w[0])] + Downcase(w[1..])
  }

  lemma CapitalizeKeepsWord(w: string)
    requires IsWord(w)
    ensures IsWord(Capitalize(w))
  {
    var r := Capitalize(w);
    forall i | 0 <= i < |r| ensures !IsSpace(r[i]) {
      if i > 0 { assert r[i] == Lower(w[i]); }
    }
  }

  lemma CapitalizeIdempotent(w: string)
    ensures Capitalize(Capitalize(w)) == Capitalize(w)
  {
    if w != [] {
      var c := Capitalize(w);
      assert c[0] == Upper(w[0]);
      assert c[1..] == Downcase(w[1..]);
      assert Downcase(c[1..]) == c[1..];
    }
  }

  // ---------------------------------------------------------------------------
  // Whitespace splitting

  /** Number of whitespace characters at the front of `s`. */
  function LeadingSpaces(s: string): (n: nat)
    ensures n <= |s|
    ensures forall i :: 0 <= i < n ==> IsSpace(s[i])
    ensures n < |s| ==> !IsSpace(s[n])
  {
    if s == [] || !IsSpace(s[0]) then 0 else 1 + LeadingSpaces(s[1..])
  }

  /** Number of non-whitespace characters at the front of `s`. */
  function WordLength(s: string): (n: nat)
    ensures n <= |s|
    ensures forall i :: 0 <= i < n ==> !IsSpace(s[i])
    ensures n < |s| ==> IsSpace(s[n])
  {
    if s == [] || IsSpace(s[0]) then 0 else 1 + WordLength(s[1..])
  }

  /** `LeadingSpaces` is the only count with its two defining properties. */
  lemma {:induction false} LeadingSpacesIs(s: string, n: nat)
    requires n <= |s|
    requires forall i :: 0 <= i < n ==> IsSpace(s[i])
    requires n < |s| ==> !IsSpace(s[n])
    ensures LeadingSpaces(s) == n
  {
    if n > 0 {
      LeadingSpacesIs(s[1..], n - 1);
    }
  }

  /** `WordLength` is the only count with its two defining properties. */
  lemma {:induction false} WordLengthIs(s: string, n: nat)
    requires n <= |s|
    requires forall i :: 0 <= i < n ==> !IsSpace(s[i])
    requires n < |s| ==> IsSpace(s[n])
    ensures WordLength(s) == n
  {
    if n > 0 {
      WordLengthIs(s[1..], n - 1);
    }
  }

  /**
   * `String#split` with no argument (or with `' '`): the maximal runs of
   * non-whitespace, in order; leading and trailing whitespace yield nothing.
   */
  function SplitWs(s: string): (r: seq<string>)
    ensures forall i :: 0 <= i < |r| ==> IsWord(r[i])
    decreases |s|
  {
    var t := s[LeadingSpaces(s)..];
    if t == [] then []
    else
      var n := WordLength(t);
      [t[..n]] + SplitWs(t[n..])
  }

  /** The words of text that starts with a word, or is empty. */
  function SplitWsFrom(t: string): seq<string> {
    if t == [] then [] else [t[..WordLength(t)]] + SplitWs(t[WordLength(t)..])
  }

  lemma SplitWsUnfold(s: string, k: nat, u: string)
    requires k == LeadingSpaces(s) && u == s[k..]
    ensures SplitWs(s) == SplitWsFrom(u)
  {
  }

  /** Leading whitespace does not change the words. */
  lemma SplitWsSkipsSpaces(sp: string, s: string)
    requires forall i :: 0 <= i < |sp| ==> IsSpace(sp[i])
    ensures SplitWs(sp + s) == SplitWs(s)
  {
    var n := LeadingSpaces(s);
    var t := sp + s;
    assert forall i :: 0 <= i < |sp| ==> t[i] == sp[i];
    assert forall i :: |sp| <= i < |t| ==> t[i] == s[i - |sp|];
    LeadingSpacesIs(t, |sp| + n);
    var u := s[n..];
    assert t[|sp| + n..] == u;
    SplitWsUnfold(t, |sp| + n, u);
    SplitWsUnfold(s, n, u);
  }

  /** A word followed by whitespace (or nothing) is split off as the first word. */
  lemma SplitWsFirstWord(w: string, rest: string)
    requires IsWord(w)
    requires rest == [] || IsSpace(rest[0])
    ensures SplitWs(w + rest) == [w] + SplitWs(rest)
  {
    var s := w + rest;
    assert forall i :: 0 <= i < |w| ==> s[i] == w[i];
    assert |w| < |s| ==> s[|w|] == rest[0];
    LeadingSpacesIs(s, 0);
    WordLengthIs(s, |w|);
    assert s[..|w|] == w && s[|w|..] == rest;
  }

  /** Whitespace only: no words. */
  lemma SplitWsBlank(s: string)
    requires forall i :: 0 <= i < |s| ==> IsSpace(s[i])
    ensures SplitWs(s) == []
  {
    SplitWsSkipsSpaces(s, []);
    assert s + [] == s;
  }

  /** `Array#join(sep)`. */
  function Join(ts: seq<string>, sep: string): (r: string)
    decreases |ts|
  {
    if ts == [] then []
    else if |ts| == 1 then ts[0]
    else ts[0] + sep + Join(ts[1..], sep)
  }

  /** A joined list avoids a character that neither the separator nor the items hold. */
  lemma {:induction false} JoinAvoids(ts: seq<string>, sep: string, c: char)
    requires c !in sep
    requires forall i :: 0 <= i < |ts| ==> c !in ts[i]
    ensures c !in Join(ts, sep)
    decreases |ts|
  {
    if |ts| > 1 {
      assert forall i :: 0 <= i < |ts[1..]| ==> c !in ts[1..][i] by {
        forall i | 0 <= i < |ts[1..]| ensures c !in ts[1..][i] { assert ts[1..][i] == ts[i + 1]; }
      }
      JoinAvoids(ts[1..], sep, c);
    }
  }

  /** Joining two or more strings puts the first, then the separator, then the rest joined. */
  lemma JoinCons(ts: seq<string>, sep: string, tail: string)
    requires |ts| > 1
    ensures Join(ts, sep) + tail == ts[0] + (sep + (Join(ts[1..], sep) + tail))
  {
  }

  predicate AllWords(ts: seq<string>) {
    forall i :: 0 <= i < |ts| ==> IsWord(ts[i])
  }

  /** Splitting words joined with single spaces gives the words back. */
  lemma {:induction false} SplitWsJoin(ts: seq<string>, tail: string)
    requires AllWords(ts)
    requires tail == [] || IsSpace(tail[0])
    ensures SplitWs(Join(ts, " ") + tail) == ts + SplitWs(tail)
    decreases |ts|
  {
    if |ts| > 1 {
      assert AllWords(ts[1..]) by {
        forall i | 0 <= i < |ts[1..]| ensures IsWord(ts[1..][i]) {
          assert ts[1..][i] == ts[i + 1];
        }
      }
      SplitWsJoin(ts[1..], tail);
      JoinCons(ts, " ", tail);
      SplitWsJoinStep(ts, tail);
    } else if |ts| == 1 {
      assert Join(ts, " ") == ts[0] && ts == [ts[0]];
      SplitWsFirstWord(ts[0], tail);
    } else {
      assert Join(ts, " ") + tail == tail && ts + SplitWs(tail) == SplitWs(tail);
    }
  }

  lemma SplitWsJoinStep(ts: seq<string>, tail: string)
    requires |ts| > 1
    requires IsWord(ts[0])
    requires SplitWs(Join(ts[1..], " ") + tail) == ts[1..] + SplitWs(tail)
    ensures SplitWs(ts[0] + (" " + (Join(ts[1..], " ") + tail))) == ts + SplitWs(tail)
  {
    SplitWsSpacedWord(ts[0], Join(ts[1..], " ") + tail);
    HeadTail(ts, SplitWs(tail));
  }

  lemma HeadTail(ts: seq<string>, x: seq<string>)
    requires ts != []
    ensures [ts[0]] + (ts[1..] + x) == ts + x
  {
    assert ts == [ts[0]] + ts[1..];
  }

  /** A word, one space, and more text: the word comes first. */
  lemma SplitWsSpacedWord(w: string, rest: string)
    requires IsWord(w)
    ensures SplitWs(w + (" " + rest)) == [w] + SplitWs(rest)
  {
    SplitWsFirstWord(w, " " + rest);
    SplitWsSkipsSpaces(" ", rest);
  }

  // ---------------------------------------------------------------------------
  // Splitting on a separator pattern

  /** What may follow the separator's literal text: nothing, `\s?` or `\s*`. */
  datatype SpaceRule = NoSpaces | OptionalSpace | AnySpaces

  /** A separator pattern: a literal followed by whitespace as its rule allows (semicolon plus any whitespace, `/:\s?/`, `'!'`). */
  datatype Sep = Sep(lit: string, spaces: SpaceRule)

  /** Length of the separator match at the front of `s`, 0 when there is none. */
  function MatchLength(s: string, sep: Sep): (n: nat)
    requires sep.lit != []
    ensures n <= |s|
    ensures n == 0 <==> !(|sep.lit| <= |s| && s[..|sep.lit|] == sep.lit)
    ensures n > 0 ==> |sep.lit| <= n
  {
    var k := |sep.lit|;
    if k <= |s| && s[..k] == sep.lit then
      match sep.spaces
      case NoSpaces => k
      case OptionalSpace => if k < |s| && IsSpace(s[k]) then k + 1 else k
      case AnySpaces => k + LeadingSpaces(s[k..])
    else 0
  }

  /**
   * Cuts `s` at every separator match, scanning left to right; `cur` is the
   * piece collected so far. Pieces between adjacent matches are empty.
   */
  function Cut(s: string, sep: Sep, cur: string): (r: seq<string>)
    requires sep.lit != []
    ensures |r| >= 1
    decreases |s|
  {
    if s == [] then [cur]
    else
      var n := MatchLength(s, sep);
      if n > 0 then [cur] + Cut(s[n..], sep, [])
      else Cut(s[1..], sep, cur + [s[0]])
  }

  function Pieces(s: string, sep: Sep): (r: seq<string>)
    requires sep.lit != []
  {
    Cut(s, sep, [])
  }

  /** Ruby's `split` drops the empty strings at the end of the list. */
  function DropTrailingEmpty(ps: seq<string>): (r: seq<string>)
    ensures r <= ps
    ensures r == [] || r[|r| - 1] != []
    ensures forall i :: |r| <= i < |ps| ==> ps[i] == []
  {
    if ps == [] || ps[|ps| - 1] != [] then ps
    else DropTrailingEmpty(ps[..|ps| - 1])
  }

  /** `String#split(pattern)` with no limit, for a non-blank pattern. */
  function Split(s: string, sep: Sep): (r: seq<string>)
    requires sep.lit != []
  {
    DropTrailingEmpty(Pieces(s, sep))
  }

  /** Characters that cannot start a separator match are collected into the current piece. */
  lemma {:induction false} CutSkips(w: string, t: string, sep: Sep, cur: string)
    requires sep.lit != []
    requires sep.lit[0] !in w
    ensures Cut(w + t, sep, cur) == Cut(t, sep, cur + w)
    decreases |w|
  {
    if w == [] {
      assert w + t == t && cur + w == cur;
    } else {
      var s := w + t;
      assert s[0] == w[0];
      assert |sep.lit| <= |s| ==> s[..|sep.lit|][0] == s[0];
      assert MatchLength(s, sep) == 0;
      assert s[1..] == w[1..] + t;
      CutSkips(w[1..], t, sep, cur + [w[0]]);
      assert cur + [w[0]] + w[1..] == cur + w;
    }
  }

  /** A piece followed by a separator match is emitted whole. */
  lemma CutPiece(w: string, t: string, sep: Sep, cur: string)
    requires sep.lit != []
    requires sep.lit[0] !in w
    requires MatchLength(t, sep) > 0
    ensures Cut(w + t, sep, cur) == [cur + w] + Cut(t[MatchLength(t, sep)..], sep, [])
  {
    CutSkips(w, t, sep, cur);
  }

  /** The last piece: text that holds no separator start runs to the end. */
  lemma CutLast(w: string, sep: Sep, cur: string)
    requires sep.lit != []
    requires sep.lit[0] !in w
    ensures Cut(w, sep, cur) == [cur + w]
  {
    CutSkips(w, [], sep, cur);
    assert w + [] == w;
  }

  /** Joining a list that starts with `x` puts `x` and the separator before the rest. */
  lemma JoinFront(x: string, rest: seq<string>, sep: string)
    requires rest != []
    ensures Join([x] + rest, sep) == x + sep + Join(rest, sep)
  {
    assert ([x] + rest)[1..] == rest;
  }

  /** With a plain literal separator, joining the pieces with it rebuilds the text. */
  lemma {:induction false} CutJoin(s: string, lit: string, cur: string)
    requires lit != []
    ensures Join(Cut(s, Sep(lit, NoSpaces), cur), lit) == cur + s
    decreases |s|
  {
    var sep := Sep(lit, NoSpaces);
    if s == [] {
      assert cur + s == cur;
    } else if MatchLength(s, sep) > 0 {
      CutJoin(s[|lit|..], lit, []);
      JoinFront(cur, Cut(s[|lit|..], sep, []), lit);
      LiteralPrefix(s, lit, cur);
    } else {
      CutJoin(s[1..], lit, cur + [s[0]]);
      assert cur + [s[0]] + s[1..] == cur + s;
    }
  }

  lemma LiteralPrefix(s: string, lit: string, cur: string)
    requires |lit| <= |s| && s[..|lit|] == lit
    ensures cur + lit + ([] + s[|lit|..]) == cur + s
  {
    assert s == s[..|lit|] + s[|lit|..];
  }

  /** With a one-character separator, the last piece is non-empty when the text does not end in that character. */
  lemma {:induction false} CutLastNonEmpty(s: string, c: char, cur: string)
    requires s == [] ==> cur != []
    requires s != [] ==> s[|s| - 1] != c
    ensures var r := Cut(s, Sep([c], NoSpaces), cur); r[|r| - 1] != []
    decreases |s|
  {
    var sep := Sep([c], NoSpaces);
    if s != [] {
      var n := MatchLength(s, sep);
      if n > 0 {
        assert n == 1 && s[0] == c by {
          assert s[..1] == [s[0]];
        }
        var rest := Cut(s[1..], sep, []);
        assert Cut(s, sep, cur) == [cur] + rest;
        CutLastNonEmpty(s[1..], c, []);
      } else {
        assert Cut(s, sep, cur) == Cut(s[1..], sep, cur + [s[0]]);
        CutLastNonEmpty(s[1..], c, cur + [s[0]]);
      }
    }
  }

  /** `split` on one character and `join` with it undo each other when the text does not end in that character. */
  lemma SplitJoinChar(s: string, c: char)
    requires s == [] || s[|s| - 1] != c
    ensures Join(Split(s, Sep([c], NoSpaces)), [c]) == s
  {
    CutJoin(s, [c], []);
    assert [] + s == s;
    if s != [] {
      CutLastNonEmpty(s, c, []);
    }
  }

  /** With a one-character separator, no piece contains that character. */
  lemma {:induction false} CutAvoids(s: string, c: char, cur: string)
    requires c !in cur
    ensures forall i :: 0 <= i < |Cut(s, Sep([c], NoSpaces), cur)| ==> c !in Cut(s, Sep([c], NoSpaces), cur)[i]
    decreases |s|
  {
    var sep := Sep([c], NoSpaces);
    if s != [] {
      var n := MatchLength(s, sep);
      if n > 0 {
        CutAvoids(s[n..], c, []);
      } else {
        assert s[..1] == [s[0]];
        CutAvoids(s[1..], c, cur + [s[0]]);
      }
    }
  }

  /** A character absent from the text and from the current piece is absent from every piece. */
  lemma {:induction false} CutKeepsOut(s: string, sep: Sep, cur: string, c: char)
    requires sep.lit != []
    requires c !in s && c !in cur
    ensures forall i :: 0 <= i < |Cut(s, sep, cur)| ==> c !in Cut(s, sep, cur)[i]
    decreases |s|
  {
    if s != [] {
      var n := MatchLength(s, sep);
      if n > 0 {
        assert forall j :: 0 <= j < |s[n..]| ==> s[n..][j] == s[n + j];
        CutKeepsOut(s[n..], sep, [], c);
      } else {
        assert forall j :: 0 <= j < |s[1..]| ==> s[1..][j] == s[1 + j];
        CutKeepsOut(s[1..], sep, cur + [s[0]], c);
      }
    }
  }

  /** With a plain literal separator whose first character no piece holds, cutting the joined pieces gives them back. */
  lemma {:induction false} CutOfJoin(ps: seq<string>, lit: string)
    requires ps != [] && lit != []
    requires forall i :: 0 <= i < |ps| ==> lit[0] !in ps[i]
    ensures Pieces(Join(ps, lit), Sep(lit, NoSpaces)) == ps
    decreases |ps|
  {
    if |ps| == 1 {
      CutLast(ps[0], Sep(lit, NoSpaces), []);
      assert [] + ps[0] == ps[0];
    } else {
      assert forall i :: 0 <= i < |ps[1..]| ==> lit[0] !in ps[1..][i] by {
        forall i | 0 <= i < |ps[1..]| ensures lit[0] !in ps[1..][i] { assert ps[1..][i] == ps[i + 1]; }
      }
      CutOfJoin(ps[1..], lit);
      CutOfJoinStep(ps, lit);
    }
  }

  lemma CutOfJoinStep(ps: seq<string>, lit: string)
    requires |ps| > 1 && lit != []
    requires lit[0] !in ps[0]
    requires Pieces(Join(ps[1..], lit), Sep(lit, NoSpaces)) == ps[1..]
    ensures Pieces(Join(ps, lit), Sep(lit, NoSpaces)) == ps
  {
    var sep := Sep(lit, NoSpaces);
    var t := lit + Join(ps[1..], lit);
    JoinCons(ps, lit, []);
    assert Join(ps, lit) + [] == Join(ps, lit);
    assert Join(ps[1..], lit) + [] == Join(ps[1..], lit);
    assert t[..|lit|] == lit;
    CutPiece(ps[0], t, sep, []);
    assert t[|lit|..] == Join(ps[1..], lit);
    HeadTail(ps, []);
    assert [] + ps[0] == ps[0];
  }

  // ---------------------------------------------------------------------------
  // strip

  function StripLeft(s: string): (r: string)
    ensures r == [] || !IsStripped(r[0])
    ensures |r| <= |s| && r == s[|s| - |r|..]
    ensures forall i :: 0 <= i < |s| - |r| ==> IsStripped(s[i])
  {
    if s != [] && IsStripped(s[0]) then StripLeft(s[1..]) else s
  }

  function StripRight(s: string): (r: string)
    ensures r <= s
    ensures r == [] || !IsStripped(r[|r| - 1])
    ensures forall i :: |r| <= i < |s| ==> IsStripped(s[i])
  {
    if s != [] && IsStripped(s[|s| - 1]) then StripRight(s[..|s| - 1]) else s
  }

  /** `String#strip`: drops whitespace and NUL at both ends. */
  function Strip(s: string): (r: string)
    ensures r == [] || (!IsStripped(r[0]) && !IsStripped(r[|r| - 1]))
  {
    StripRight(StripLeft(s))
  }

  /** Trailing whitespace and NUL after a string that does not end in one are all removed. */
  lemma {:induction false} StripRightTail(s: string, tail: string)
    requires s == [] || !IsStripped(s[|s| - 1])
    requires forall i :: 0 <= i < |tail| ==> IsStripped(tail[i])
    ensures StripRight(s + tail) == s
    decreases |tail|
  {
    if tail == [] {
      assert s + tail == s;
    } else {
      var t := s + tail;
      assert t[|t| - 1] == tail[|tail| - 1];
      assert t[..|t| - 1] == s + tail[..|tail| - 1];
      StripRightTail(s, tail[..|tail| - 1]);
    }
  }

  /** A string without whitespace or NUL at its ends is its own `strip`, whatever such characters follow it. */
  lemma StripTrimmed(s: string, tail: string)
    requires s == [] || (!IsStripped(s[0]) && !IsStripped(s[|s| - 1]))
    requires forall i :: 0 <= i < |tail| ==> IsStripped(tail[i])
    ensures Strip(s + tail) == s
  {
    var t := s + tail;
    if s == [] {
      assert t == tail;
      assert StripLeft(t) == [];
    } else {
      assert t[0] == s[0];
      assert StripLeft(t) == t;
      StripRightTail(s, tail);
    }
  }

  // ---------------------------------------------------------------------------
  // reverse

  /** `String#reverse`. */
  function Reverse(s: string): (r: string)
    ensures |r| == |s|
  {
    if s == [] then [] else Reverse(s[1..]) + [s[0]]
  }

  /** Reversal puts the character at `k` at the mirrored position. */
  lemma {:induction false} ReverseAt(s: string, k: nat)
    requires k < |s|
    ensures Reverse(s)[k] == s[|s| - 1 - k]
  {
    if k < |s| - 1 {
      ReverseAt(s[1..], k);
    }
  }

  /** Every character of the reversal is the mirrored character of the text. */
  lemma ReverseMirror(s: string)
    ensures forall k :: 0 <= k < |s| ==> Reverse(s)[k] == s[|s| - 1 - k]
  {
    forall k | 0 <= k < |s| ensures Reverse(s)[k] == s[|s| - 1 - k] {
      ReverseAt(s, k);
    }
  }

  /** Reversing twice gives back the text. */
  lemma ReverseTwice(s: string)
    ensures Reverse(Reverse(s)) == s
  {
    var r := Reverse(s);
    ReverseMirror(s);
    ReverseMirror(r);
  }

  // ---------------------------------------------------------------------------
  // Decimal numbers

  function Digit(d: nat): (c: char)
    requires d < 10
    ensures '0' <= c <= '9'
  {
    ('0' as int + d) as char
  }

  predicate AllDigits(s: string) {
    forall i :: 0 <= i < |s| ==> '0' <= s[i] <= '9'
  }

  /** `"#{n}"` for a natural number: its decimal digits, most significant first. */
  function Decimal(n: nat): (r: string)
    ensures r != [] && AllDigits(r)
    decreases n
  {
    if n < 10 then [Digit(n)] else Decimal(n / 10) + [Digit(n % 10)]
  }

  /** The value of a string of decimal digits. */
  function DecimalValue(s: string): int
  {
    if s == [] then 0
    else 10 * DecimalValue(s[..|s| - 1]) + (s[|s| - 1] as int - '0' as int)
  }

  /** Reading the digits back gives the number: the rendering loses nothing. */
  lemma {:induction false} DecimalRoundTrip(n: nat)
    ensures DecimalValue(Decimal(n)) == n
    decreases n
  {
    if n >= 10 {
      DecimalRoundTrip(n / 10);
      var r := Decimal(n);
      assert r[..|r| - 1] == Decimal(n / 10);
    }
  }

  /** `format("%d", q)`: a minus sign before the digits of a negative number. */
  function FormatInt(q: int): (r: string)
    ensures r != []
  {
    if q < 0 then "-" + Decimal(-q) else Decimal(q)
  }

}
