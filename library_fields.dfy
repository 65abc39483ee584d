/**
 * The CSV field parsers of step1.rb (repeated word for word as the nested
 * classes `Library::Hours`, `Library::Address` and `Library::Coords` of
 * step3.rb): the opening-hours table, the two-line postal address and the
 * coordinate tokens.
 */
module LibraryFields {
  import opened Wrappers
  import opened Text
  import opened Seqs

  // ---------------------------------------------------------------------------
  // Opening hours: "Mon, Tue: 9AM-5PM; Sun: Closed"

  /** The hash `to_h` fills: day name to `[open, close]`, in insertion order. */
  type Hours = seq<(string, seq<string>)>

  /** The separators: semicolon and any whitespace, colon and at most one whitespace, comma likewise, hyphen. */
  const GroupSep := Sep(";", AnySpaces)
  const DaysHoursSep := Sep(":", OptionalSpace)
  const DaySep := Sep(",", OptionalSpace)
  const RangeSep := Sep("-", NoSpaces)

  /** A group with no hours part: `hours` is `nil` and `hours.downcase` raises. */
  datatype HoursError = MissingHours(group: string)

  /** Text without upper-case ASCII letters. */
  predicate IsLowerText(s: string) {
    forall i :: 0 <= i < |s| ==> !('A' <= s[i] <= 'Z')
  }

  predicate AllLower(ss: seq<string>) {
    forall i :: 0 <= i < |ss| ==> IsLowerText(ss[i])
  }

  /** What `to_h` promises of its hash: each day once, days and hours in lower case. */
  predicate WellFormed(h: Hours) {
    Distinct(Keys(h)) && forall i :: 0 <= i < |h| ==> IsLowerText(h[i].0) && AllLower(h[i].1)
  }

  /** Hash lookup: the value stored under `k`, `nil` when there is none. */
  function Get(h: Hours, k: string): (r: Option<seq<string>>)
    ensures r.None? <==> k !in Keys(h)
  {
    if h == [] then None
    else if h[0].0 == k then Some(h[0].1)
    else
      assert Keys(h) == [h[0].0] + Keys(h[1..]);
      Get(h[1..], k)
  }

  /** Where key `k` sits in the hash: its first position. */
  function IndexOf(h: Hours, k: string): (i: nat)
    requires k in Keys(h)
    ensures i < |h| && h[i].0 == k && forall j :: 0 <= j < i ==> h[j].0 != k
  {
    if h[0].0 == k then 0
    else
      assert Keys(h) == [h[0].0] + Keys(h[1..]);
      1 + IndexOf(h[1..], k)
  }

  /** Lookup finds the value at the first position holding the key. */
  lemma {:induction false} GetAt(h: Hours, i: nat, d: string)
    requires i < |h| && h[i].0 == d && forall j :: 0 <= j < i ==> h[j].0 != d
    ensures Get(h, d) == Some(h[i].1)
    decreases i
  {
    if i > 0 {
      GetAt(h[1..], i - 1, d);
    }
  }

  /**
   * `output[k] = v`: a new key goes last, an existing key keeps its place
   * and takes the new value.
   */
  function Put(h: Hours, k: string, v: seq<string>): (r: Hours)
    ensures Keys(r) == if k in Keys(h) then Keys(h) else Keys(h) + [k]
  {
    if k in Keys(h) then
      var r := h[IndexOf(h, k) := (k, v)];
      assert Keys(r) == Keys(h);
      r
    else
      var r := h + [(k, v)];
      assert Keys(r) == Keys(h) + [k];
      r
  }

  /** After a store the key holds the new value and every other key its old one. */
  lemma PutGet(h: Hours, k: string, v: seq<string>, d: string)
    ensures Get(Put(h, k, v), d) == if d == k then Some(v) else Get(h, d)
  {
    var r := Put(h, k, v);
    var n := if k in Keys(h) then IndexOf(h, k) else |h|;
    assert forall j :: 0 <= j < |r| && j != n ==> r[j] == h[j];
    assert r[n] == (k, v);
    if d == k {
      GetAt(r, n, k);
    } else if d in Keys(h) {
      var j := IndexOf(h, d);
      GetAt(h, j, d);
      GetAt(r, j, d);
    }
  }

  /** Storing lower-case text keeps the hash well formed. */
  lemma PutWellFormed(h: Hours, k: string, v: seq<string>)
    requires WellFormed(h) && IsLowerText(k) && AllLower(v)
    ensures WellFormed(Put(h, k, v))
  {
    var r := Put(h, k, v);
    var n := if k in Keys(h) then IndexOf(h, k) else |h|;
    assert forall j :: 0 <= j < |r| && j != n ==> r[j] == h[j];
    assert r[n] == (k, v);
  }

  /** `parse_hours`: the pieces around '-', each in lower case. */
  function ParseHours(hours: string): (r: seq<string>)
    ensures AllLower(r)
  {
    Downcased(Split(hours, RangeSep))
  }

  /**
   * The hours read back: joining the pieces with '-' gives the lower-cased
   * text, unless the text ends in '-' (Ruby's `split` drops the empty last piece).
   */
  lemma ParseHoursJoin(hours: string)
    requires hours == [] || hours[|hours| - 1] != '-'
    ensures Join(ParseHours(hours), "-") == Downcase(hours)
    ensures forall i :: 0 <= i < |ParseHours(hours)| ==> '-' !in ParseHours(hours)[i]
  {
    var ps := Split(hours, RangeSep);
    SplitJoinChar(hours, '-');
    DowncasedJoin(ps);
    CutAvoids(hours, '-', []);
    forall i | 0 <= i < |ps| ensures '-' !in Downcase(ps[i]) {
      assert ps[i] == Pieces(hours, RangeSep)[i];
      assert forall j :: 0 <= j < |ps[i]| ==> Downcase(ps[i])[j] != '-';
    }
  }

  /** Lower-casing each piece and joining with '-' is lower-casing the joined text. */
  lemma {:induction false} DowncasedJoin(ps: seq<string>)
    ensures Join(Downcased(ps), "-") == Downcase(Join(ps, "-"))
    decreases |ps|
  {
    if |ps| == 1 {
      assert Downcased(ps) == [Downcase(ps[0])];
    } else if |ps| > 1 {
      assert Downcased(ps)[1..] == Downcased(ps[1..]);
      DowncasedJoin(ps[1..]);
      DowncaseAppend(ps[0] + "-", Join(ps[1..], "-"));
      DowncaseAppend(ps[0], "-");
    }
  }

  lemma DowncaseAppend(a: string, b: string)
    ensures Downcase(a + b) == Downcase(a) + Downcase(b)
  {
  }

  function Downcased(ss: seq<string>): (r: seq<string>)
    ensures |r| == |ss| && AllLower(r)
  {
    seq(|ss|, i requires 0 <= i < |ss| => Downcase(ss[i]))
  }

  /** `days, hours = group.split(/:\s?/)`: the first two pieces, or no hours. */
  function GroupParts(group: string): Option<(string, string)> {
    var ps := Split(group, DaysHoursSep);
    if |ps| < 2 then None else Some((ps[0], ps[1]))
  }

  predicate IsClosed(hours: string) {
    Downcase(hours) == "closed"
  }

  /** The keys one group writes: its days, split on commas and lower-cased. */
  function DayKeys(days: string): seq<string> {
    Downcased(Split(days, DaySep))
  }

  /** The inner loop on values: each day, lower-cased, is given `v` in turn. */
  function PutDays(h: Hours, days: seq<string>, v: seq<string>): Hours
    decreases |days|
  {
    if days == [] then h else PutDays(Put(h, Downcase(days[0]), v), days[1..], v)
  }

  /** The outer loop on values: the groups in turn, skipping the closed ones, raising on one without hours. */
  function Fill(h: Hours, groups: seq<string>): Result<Hours, HoursError>
    decreases |groups|
  {
    if groups == [] then Ok(h)
    else
      match GroupParts(groups[0])
      case None => Err(MissingHours(groups[0]))
      case Some((days, hours)) =>
        if IsClosed(hours) then Fill(h, groups[1..])
        else Fill(PutDays(h, Split(days, DaySep), ParseHours(hours)), groups[1..])
  }

  /** `LibraryHours#to_h` on a value. */
  function HoursTable(input: string): Result<Hours, HoursError> {
    Fill([], Split(input, GroupSep))
  }

  /** `LibraryHours#to_h`: fills the hash group by group and day by day. */
  method ToH(input: string) returns (r: Result<Hours, HoursError>)
    ensures r == HoursTable(input)
  {
    var output: Hours := [];
    var groups := Split(input, GroupSep);
    var i := 0;
    while i < |groups|
      invariant 0 <= i <= |groups|
      invariant Fill(output, groups[i..]) == HoursTable(input)
    {
      assert groups[i..][0] == groups[i] && groups[i..][1..] == groups[i + 1..];
      var parts := GroupParts(groups[i]);
      if parts.None? {
        return Err(MissingHours(groups[i]));
      }
      var (days, hours) := parts.value;
      if !IsClosed(hours) {
        var dayList := Split(days, DaySep);
        ghost var start := output;
        var j := 0;
        while j < |dayList|
          invariant 0 <= j <= |dayList|
          invariant PutDays(output, dayList[j..], ParseHours(hours)) == PutDays(start, dayList, ParseHours(hours))
        {
          assert dayList[j..][0] == dayList[j] && dayList[j..][1..] == dayList[j + 1..];
          output := Put(output, Downcase(dayList[j]), ParseHours(hours));
          j := j + 1;
        }
        assert dayList[j..] == [];
      }
      i := i + 1;
    }
    assert groups[i..] == [];
    r := Ok(output);
  }

  /** The value the last non-closed group listing day `d` gives it, if any group does. */
  function Assigned(groups: seq<string>, d: string): Option<seq<string>>
    decreases |groups|
  {
    if groups == [] then None
    else
      var later := Assigned(groups[1..], d);
      if later.Some? then later
      else
        match GroupParts(groups[0])
        case Some((days, hours)) =>
          if !IsClosed(hours) && d in DayKeys(days) then Some(ParseHours(hours)) else None
        case None => None
  }

  /** After the inner loop, a listed day holds the group's value and every other day is untouched. */
  lemma {:induction false} PutDaysGet(h: Hours, days: seq<string>, v: seq<string>, d: string)
    ensures Get(PutDays(h, days, v), d) == if d in Downcased(days) then Some(v) else Get(h, d)
    decreases |days|
  {
    if days != [] {
      PutGet(h, Downcase(days[0]), v, d);
      PutDaysGet(Put(h, Downcase(days[0]), v), days[1..], v, d);
      DowncasedFront(days, d);
    }
  }

  lemma DowncasedFront(days: seq<string>, d: string)
    requires days != []
    ensures d in Downcased(days) <==> d == Downcase(days[0]) || d in Downcased(days[1..])
  {
    assert Downcased(days) == [Downcase(days[0])] + Downcased(days[1..]);
  }

  lemma {:induction false} PutDaysWellFormed(h: Hours, days: seq<string>, v: seq<string>)
    requires WellFormed(h) && AllLower(v)
    ensures WellFormed(PutDays(h, days, v))
    decreases |days|
  {
    if days != [] {
      PutWellFormed(h, Downcase(days[0]), v);
      PutDaysWellFormed(Put(h, Downcase(days[0]), v), days[1..], v);
    }
  }

  /** Each day holds the value of the last non-closed group listing it; days no group lists keep their old value. */
  lemma {:induction false} FillGet(h: Hours, groups: seq<string>, d: string)
    requires Fill(h, groups).Ok?
    ensures Get(Fill(h, groups).value, d) == if Assigned(groups, d).Some? then Assigned(groups, d) else Get(h, d)
    decreases |groups|
  {
    if groups != [] {
      var (days, hours) := GroupParts(groups[0]).value;
      if IsClosed(hours) {
        FillGet(h, groups[1..], d);
      } else {
        var h' := PutDays(h, Split(days, DaySep), ParseHours(hours));
        FillGet(h', groups[1..], d);
        PutDaysGet(h, Split(days, DaySep), ParseHours(hours), d);
      }
    }
  }

  lemma {:induction false} FillWellFormed(h: Hours, groups: seq<string>)
    requires WellFormed(h)
    requires Fill(h, groups).Ok?
    ensures WellFormed(Fill(h, groups).value)
    decreases |groups|
  {
    if groups != [] {
      var (days, hours) := GroupParts(groups[0]).value;
      if IsClosed(hours) {
        FillWellFormed(h, groups[1..]);
      } else {
        PutDaysWellFormed(h, Split(days, DaySep), ParseHours(hours));
        FillWellFormed(PutDays(h, Split(days, DaySep), ParseHours(hours)), groups[1..]);
      }
    }
  }

  lemma {:induction false} FillFails(h: Hours, groups: seq<string>)
    ensures Fill(h, groups).Err? <==> exists i :: 0 <= i < |groups| && GroupParts(groups[i]).None?
    decreases |groups|
  {
    if groups != [] {
      var rest := groups[1..];
      assert forall i :: 0 <= i < |rest| ==> rest[i] == groups[i + 1];
      if GroupParts(groups[0]).Some? {
        var (days, hours) := GroupParts(groups[0]).value;
        var h' := if IsClosed(hours) then h else PutDays(h, Split(days, DaySep), ParseHours(hours));
        FillFails(h', rest);
        if exists i :: 0 <= i < |groups| && GroupParts(groups[i]).None? {
          var i :| 0 <= i < |groups| && GroupParts(groups[i]).None?;
          assert GroupParts(rest[i - 1]).None?;
        }
      }
    }
  }

  /**
   * The hours table maps each day to the lower-cased hours of the last
   * non-closed group that lists it: closed groups add nothing and later
   * groups overwrite earlier ones.
   */
  lemma HoursLookup(input: string, d: string)
    requires HoursTable(input).Ok?
    ensures Get(HoursTable(input).value, d) == Assigned(Split(input, GroupSep), d)
  {
    FillGet([], Split(input, GroupSep), d);
  }

  /** Each day appears once in the table, and days and hours are in lower case. */
  lemma HoursWellFormed(input: string)
    requires HoursTable(input).Ok?
    ensures WellFormed(HoursTable(input).value)
  {
    FillWellFormed([], Split(input, GroupSep));
  }

  /** `to_h` raises exactly when some group has no hours part. */
  lemma HoursFails(input: string)
    ensures HoursTable(input).Err?
        <==> exists i :: 0 <= i < |Split(input, GroupSep)| && GroupParts(Split(input, GroupSep)[i]).None?
  {
    FillFails([], Split(input, GroupSep));
  }

  // ---------------------------------------------------------------------------
  // Address: `capitalize_all` and `to_s`

  function CapitalizeWords(ws: seq<string>): (r: seq<string>)
    ensures |r| == |ws| && forall i :: 0 <= i < |ws| ==> r[i] == Capitalize(ws[i])
  {
    seq(|ws|, i requires 0 <= i < |ws| => Capitalize(ws[i]))
  }

  /** `capitalize_all`: the whitespace-separated words, each capitalised, joined by single spaces. */
  function CapitalizeAll(s: string): string {
    Join(CapitalizeWords(SplitWs(s)), " ")
  }

  /** Splitting the result again gives the capitalised words: the word count is kept. */
  lemma CapitalizeAllWords(s: string)
    ensures SplitWs(CapitalizeAll(s)) == CapitalizeWords(SplitWs(s))
    ensures |SplitWs(CapitalizeAll(s))| == |SplitWs(s)|
  {
    var ws := CapitalizeWords(SplitWs(s));
    forall i | 0 <= i < |ws| ensures IsWord(ws[i]) {
      CapitalizeKeepsWord(SplitWs(s)[i]);
    }
    SplitWsJoin(ws, []);
    assert Join(ws, " ") + [] == Join(ws, " ");
    assert ws + [] == ws;
  }

  lemma CapitalizeAllIdempotent(s: string)
    ensures CapitalizeAll(CapitalizeAll(s)) == CapitalizeAll(s)
  {
    CapitalizeAllWords(s);
    var ws := CapitalizeWords(SplitWs(s));
    forall i | 0 <= i < |ws| ensures Capitalize(ws[i]) == ws[i] {
      CapitalizeIdempotent(SplitWs(s)[i]);
    }
    assert CapitalizeWords(ws) == ws;
  }

  /** A capitalised address is one line. */
  lemma CapitalizeAllOneLine(s: string)
    ensures '\n' !in CapitalizeAll(s)
  {
    var ws := CapitalizeWords(SplitWs(s));
    forall i | 0 <= i < |ws| ensures '\n' !in ws[i] {
      CapitalizeKeepsWord(SplitWs(s)[i]);
      assert forall j :: 0 <= j < |ws[i]| ==> ws[i][j] != '\n';
    }
    JoinAvoids(ws, " ", '\n');
  }

  /** The fields of `LibraryAddress`; a missing ZIP is `nil`. */
  datatype Address = Address(street: string, city: string, state: string, zip: Option<string>)

  /** `"#{zip}"`: `nil` renders as nothing. */
  function Interpolate(v: Option<string>): string {
    if v.Some? then v.value else ""
  }

  /** `LibraryAddress#to_s`. */
  function AddressText(a: Address): string {
    CapitalizeAll(a.street) + "\n" + CityLine(a)
  }

  /** The second line of the address. */
  function CityLine(a: Address): string {
    CapitalizeAll(a.city) + ", " + Upcase(a.state) + " " + Interpolate(a.zip)
  }

  /**
   * The address is two lines: the capitalised street, then the capitalised
   * city, a comma, the upper-cased state and the ZIP.
   */
  lemma AddressLines(a: Address)
    requires '\n' !in a.state && '\n' !in Interpolate(a.zip)
    ensures Pieces(AddressText(a), Sep("\n", NoSpaces)) == [CapitalizeAll(a.street), CityLine(a)]
  {
    CapitalizeAllOneLine(a.street);
    SecondLineOneLine(a);
    TwoLines(CapitalizeAll(a.street), CityLine(a));
  }

  /** Two lines without line feeds, joined by one, are cut back into the two. */
  lemma TwoLines(first: string, second: string)
    requires '\n' !in first && '\n' !in second
    ensures Pieces(first + "\n" + second, Sep("\n", NoSpaces)) == [first, second]
  {
    JoinTwo(first, second, "\n");
    CutOfJoin([first, second], "\n");
  }

  lemma JoinTwo(x: string, y: string, sep: string)
    ensures Join([x, y], sep) == x + sep + y
  {
    assert [x, y][1..] == [y];
  }

  lemma SecondLineOneLine(a: Address)
    requires '\n' !in a.state && '\n' !in Interpolate(a.zip)
    ensures '\n' !in CityLine(a)
  {
    CapitalizeAllOneLine(a.city);
    assert '\n' !in Upcase(a.state) by {
      forall i | 0 <= i < |a.state| ensures Upcase(a.state)[i] != '\n' {
        assert a.state[i] != '\n';
      }
    }
  }

  // ---------------------------------------------------------------------------
  // Coordinates: "(41.88, -87.62)"

  const CoordSep := Sep(", ", NoSpaces)

  predicate NotParen(c: char) {
    c != '(' && c != ')'
  }

  /** `gsub(/\(|\)/, '')`: every parenthesis removed, every other character kept in order. */
  function RemoveParens(s: string): (r: string)
    ensures '(' !in r && ')' !in r
    ensures IsSubsequence(r, s)
    ensures forall c :: NotParen(c) ==> multiset(r)[c] == multiset(s)[c]
  {
    FilterIsSubsequence(s, NotParen);
    forall c | NotParen(c) {
      FilterCounts(s, NotParen, c);
    }
    Filter(s, NotParen)
  }

  /** `LibraryCoords#to_a` up to the numeric conversion: the tokens between the ", " separators. */
  function CoordTokens(s: string): seq<string> {
    Split(RemoveParens(s), CoordSep)
  }

  /** No coordinate token holds a parenthesis. */
  lemma CoordTokensNoParens(s: string)
    ensures forall i :: 0 <= i < |CoordTokens(s)| ==> '(' !in CoordTokens(s)[i] && ')' !in CoordTokens(s)[i]
  {
    CutKeepsOut(RemoveParens(s), CoordSep, [], '(');
    CutKeepsOut(RemoveParens(s), CoordSep, [], ')');
  }

  /** Round trip: a parenthesised, ", "-separated list of tokens gives the tokens back. */
  lemma CoordRoundTrip(ts: seq<string>)
    requires ts != [] && ts[|ts| - 1] != []
    requires forall i :: 0 <= i < |ts| ==> '(' !in ts[i] && ')' !in ts[i] && ',' !in ts[i]
    ensures CoordTokens("(" + Join(ts, ", ") + ")") == ts
  {
    var j := Join(ts, ", ");
    JoinAvoids(ts, ", ", '(');
    JoinAvoids(ts, ", ", ')');
    UnwrapParens(j);
    CutOfJoin(ts, ", ");
  }

  /** Removing the parentheses around text that holds none gives the text. */
  lemma UnwrapParens(j: string)
    requires '(' !in j && ')' !in j
    ensures RemoveParens("(" + j + ")") == j
  {
    FilterConcat("(" + j, ")", NotParen);
    FilterConcat("(", j, NotParen);
    FilterKeepsAll(j, NotParen);
    assert Filter(")", NotParen) == [] by {
      assert ")"[..0] == [];
    }
    assert Filter("(", NotParen) == [] by {
      assert "("[..0] == [];
    }
  }
}
