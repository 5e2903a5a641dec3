/**
  Reading one line of step results: the pattern ^(pending|undefined)\s+(.+):([0-9]+)$ with the
  leftmost-first choice of Go's regexp package, and the conversion of the number.
 */
module LocationParser {
  import opened Grouping
  import opened GoText

  const PENDING := "pending"
  const UNDEFINED := "undefined"

  /** The largest int of a 64-bit Go platform; strconv.Atoi rejects anything above it. */
  const MAX_INT: int := 0x7FFF_FFFF_FFFF_FFFF

  datatype Location = Location(status: string, file: string, line: int)

  predicate IsStatus(s: string) {
    s == PENDING || s == UNDEFINED
  }

  /** The class \s, which is narrower than the whitespace that TrimSpace removes. */
  predicate IsBlank(c: char) {
    c == ' ' || c == '\t' || c == '\n' || c == '\U{C}' || c == '\r'
  }

  predicate AllBlank(s: string) {
    forall i :: 0 <= i < |s| ==> IsBlank(s[i])
  }

  /** The class by its bytes: tab, newline, form feed, carriage return, space. */
  lemma IsBlankIff(c: char)
    ensures IsBlank(c) <==> c as int in {0x09, 0x0A, 0x0C, 0x0D, 0x20}
  {
  }

  // ----- the pattern, as a relation -----

  /** One way to read a line: the text of \s+ and of the three submatches. */
  datatype Match = Match(status: string, space: string, file: string, digits: string)

  ghost predicate Matches(s: string, m: Match) {
    && (m.status == "pending" || m.status == "undefined")
    && m.space != "" && AllBlank(m.space)
    && m.file != "" && '\n' !in m.file
    && m.digits != "" && AllDigits(m.digits)
    && s == m.status + m.space + m.file + ":" + m.digits
  }

  /** Leftmost-first: earlier alternative, then longer \s+, then longer .+, then longer [0-9]+. */
  ghost predicate Prefers(m: Match, n: Match) {
    if m.status != n.status then m.status == "pending"
    else if |m.space| != |n.space| then |m.space| > |n.space|
    else if |m.file| != |n.file| then |m.file| > |n.file|
    else |m.digits| >= |n.digits|
  }

  /** The same relation on what follows the status: \s+ ends at w and .+ ends at c. */
  ghost predicate Cut(rest: string, w: int, c: int) {
    && 1 <= w < c < |rest| - 1
    && AllBlank(rest[..w])
    && '\n' !in rest[w..c]
    && rest[c] == ':'
    && AllDigits(rest[c + 1..])
  }

  // ----- the matcher, by backtracking in order of preference -----

  function BlankRun(s: string): (n: nat)
    ensures n <= |s| && AllBlank(s[..n])
    ensures n < |s| ==> !IsBlank(s[n])
  {
    if s == "" || !IsBlank(s[0]) then 0 else 1 + BlankRun(s[1..])
  }

  function LineRun(s: string): (n: nat)
    ensures n <= |s| && '\n' !in s[..n]
    ensures n < |s| ==> s[n] == '\n'
  {
    if s == "" || s[0] == '\n' then 0
    else
      var n := LineRun(s[1..]);
      assert s[..n + 1] == [s[0]] + s[1..][..n];
      n + 1
  }

  /** Ends .+ as late as possible, no later than c, with \s+ ending at w. */
  function TryFile(rest: string, w: nat, c: nat): (r: Option<nat>)
    requires 1 <= w <= c <= |rest| && AllBlank(rest[..w]) && '\n' !in rest[w..c]
    ensures r.Some? ==> Cut(rest, w, r.value)
    ensures forall d :: Cut(rest, w, d) && d <= c ==> r.Some? && d <= r.value
  {
    if c == w then None
    else if c < |rest| - 1 && rest[c] == ':' && AllDigits(rest[c + 1..]) then Some(c)
    else
      assert forall x :: x in rest[w..c - 1] ==> x in rest[w..c];
      TryFile(rest, w, c - 1)
  }

  /** .+ cannot reach past the next newline. */
  lemma FileWithinLine(rest: string, w: nat, d: nat)
    requires Cut(rest, w, d)
    ensures d <= w + LineRun(rest[w..])
  {
    forall i | w <= i < d ensures rest[i] != '\n' {
      assert rest[i] == rest[w..d][i - w];
    }
  }

  /** Ends \s+ as late as possible, no later than w. */
  function TrySpace(rest: string, w: nat): (r: Option<(nat, nat)>)
    requires w <= |rest| && AllBlank(rest[..w])
    ensures r.Some? ==> Cut(rest, r.value.0, r.value.1)
    ensures forall v, d :: Cut(rest, v, d) && v <= w ==>
              r.Some? && (v < r.value.0 || (v == r.value.0 && d <= r.value.1))
  {
    if w == 0 then None
    else
      var end := w + LineRun(rest[w..]);
      assert rest[w..end] == rest[w..][..end - w];
      assert forall d :: Cut(rest, w, d) ==> d <= end by {
        forall d | Cut(rest, w, d) ensures d <= end { FileWithinLine(rest, w, d); }
      }
      var file := TryFile(rest, w, end);
      if file.Some? then Some((w, file.value)) else TrySpace(rest, w - 1)
  }

  function MatchAfter(status: string, s: string): Option<Match> {
    if status <= s then
      var rest := s[|status|..];
      match TrySpace(rest, BlankRun(rest))
      case None => None
      case Some(p) => Some(Match(status, rest[..p.0], rest[p.0..p.1], rest[p.1 + 1..]))
    else None
  }

  function FindMatch(s: string): Option<Match> {
    var m := MatchAfter(PENDING, s);
    if m.Some? then m else MatchAfter(UNDEFINED, s)
  }

  /** What the scan loop keeps of one line. */
  function ParseLine(s: string): (r: Option<Location>)
    ensures r.Some? ==> 0 <= r.value.line <= MAX_INT
  {
    match FindMatch(s)
    case None => None
    case Some(m) =>
      if AllDigits(m.digits) && Value(m.digits) <= MAX_INT
      then Some(Location(m.status, m.file, Value(m.digits)))
      else None
  }

  // ----- the matcher finds the preferred match -----

  lemma Pieces(s: string, status: string, a: string, b: string, d: string)
    requires s == status + a + b + ":" + d
    ensures status <= s
    ensures var rest := s[|status|..];
      && |rest| == |a| + |b| + 1 + |d|
      && rest[..|a|] == a && rest[|a|..|a| + |b|] == b
      && rest[|a| + |b|] == ':' && rest[|a| + |b| + 1..] == d
  {
  }

  lemma CutOfMatch(s: string, m: Match)
    requires Matches(s, m)
    ensures m.status <= s
    ensures var rest := s[|m.status|..]; var w := |m.space|; var c := w + |m.file|;
      Cut(rest, w, c) && m == Match(m.status, rest[..w], rest[w..c], rest[c + 1..])
  {
    Pieces(s, m.status, m.space, m.file, m.digits);
  }

  lemma Assemble(s: string, status: string, w: nat, c: nat)
    requires status <= s && w <= c < |s| - |status| && s[|status|..][c] == ':'
    ensures var rest := s[|status|..]; s == status + rest[..w] + rest[w..c] + ":" + rest[c + 1..]
  {
    var rest := s[|status|..];
    assert rest == rest[..w] + rest[w..c] + ":" + rest[c + 1..];
  }

  lemma MatchOfCut(s: string, status: string, w: nat, c: nat)
    requires IsStatus(status) && status <= s
    requires Cut(s[|status|..], w, c)
    ensures var rest := s[|status|..];
      Matches(s, Match(status, rest[..w], rest[w..c], rest[c + 1..]))
  {
    Assemble(s, status, w, c);
  }

  /** \s+ cannot reach past the blanks that are there. */
  lemma CutWithinRun(rest: string, w: nat, c: nat)
    requires Cut(rest, w, c)
    ensures w <= BlankRun(rest)
  {
    forall i | 0 <= i < w ensures IsBlank(rest[i]) {
      assert rest[..w][i] == rest[i];
    }
  }

  lemma StatusOfLine(s: string)
    ensures !(PENDING <= s && UNDEFINED <= s)
  {
    if PENDING <= s {
      assert s[0] == PENDING[0] != UNDEFINED[0];
    }
  }

  lemma MatchAfterFinds(status: string, s: string)
    requires IsStatus(status)
    ensures MatchAfter(status, s).Some? ==> Matches(s, MatchAfter(status, s).value)
    ensures forall n :: Matches(s, n) && n.status == status ==>
              MatchAfter(status, s).Some? && Prefers(MatchAfter(status, s).value, n)
  {
    var r := MatchAfter(status, s);
    if r.Some? {
      var rest := s[|status|..];
      var p := TrySpace(rest, BlankRun(rest)).value;
      MatchOfCut(s, status, p.0, p.1);
    }
    forall n | Matches(s, n) && n.status == status ensures r.Some? && Prefers(r.value, n) {
      MatchAfterPrefers(s, n);
    }
  }

  lemma MatchAfterPrefers(s: string, n: Match)
    requires Matches(s, n)
    ensures MatchAfter(n.status, s).Some? && Prefers(MatchAfter(n.status, s).value, n)
  {
    var rest, w := s[|n.status|..], |n.space|;
    var c := w + |n.file|;
    CutOfMatch(s, n);
    CutWithinRun(rest, w, c);
    assert Cut(rest, w, c);
    var p := TrySpace(rest, BlankRun(rest)).value;
    assert w < p.0 || (w == p.0 && c <= p.1);
  }

  /** The matcher is sound, complete, and returns the match that leftmost-first semantics prescribes. */
  lemma FindMatchIsPreferred(s: string)
    ensures FindMatch(s).Some? ==> Matches(s, FindMatch(s).value)
    ensures forall n :: Matches(s, n) ==> FindMatch(s).Some? && Prefers(FindMatch(s).value, n)
  {
    MatchAfterFinds(PENDING, s);
    MatchAfterFinds(UNDEFINED, s);
    StatusOfLine(s);
    forall n | Matches(s, n) ensures FindMatch(s).Some? && Prefers(FindMatch(s).value, n) {
      CutOfMatch(s, n);
    }
  }

  // ----- closed form -----

  /** The digits of a reading are exactly what follows the last colon of the line. */
  lemma AfterLastColon(s: string, m: Match)
    requires Matches(s, m)
    ensures |m.status| + |m.space + m.file| == |s| - |m.digits| - 1
    ensures s[|s| - |m.digits| - 1] == ':'
    ensures m.digits == s[|s| - |m.digits|..]
    ensures forall i :: |s| - |m.digits| <= i < |s| ==> s[i] != ':'
    ensures m.space + m.file == s[|m.status|..|s| - |m.digits| - 1]
  {
    var middle := m.space + m.file;
    assert s == m.status + middle + ":" + m.digits;
    assert s[|m.status|..|m.status| + |middle|] == middle;
    assert s[|m.status| + |middle| + 1..] == m.digits;
    forall i | |s| - |m.digits| <= i < |s| ensures s[i] != ':' {
      assert s[i] == m.digits[i - (|s| - |m.digits|)];
    }
  }

  /** Every way to read a line splits it at the same colon, the last one. */
  lemma LastColon(s: string, m: Match, n: Match)
    requires Matches(s, m) && Matches(s, n)
    ensures n.status == m.status
    ensures n.digits == m.digits
    ensures n.space + n.file == m.space + m.file
  {
    AfterLastColon(s, m);
    AfterLastColon(s, n);
    StatusOfLine(s);
    assert n.status <= s && m.status <= s;
  }

  /** A file that greedy \s+ leaves whole: \s+ gives a blank back only if nothing else is left. */
  predicate Canonical(file: string) {
    file != "" && '\n' !in file && (|file| == 1 || !IsBlank(file[0]))
  }

  lemma PreferredIsCanonical(s: string, m: Match)
    requires Matches(s, m)
    requires forall n :: Matches(s, n) ==> Prefers(m, n)
    ensures Canonical(m.file)
  {
    if |m.file| > 1 && IsBlank(m.file[0]) {
      var n := Match(m.status, m.space + [m.file[0]], m.file[1..], m.digits);
      assert s == n.status + n.space + n.file + ":" + n.digits;
      assert Matches(s, n);
    }
  }

  lemma CanonicalIsPreferred(s: string, m: Match, p: Match)
    requires Matches(s, m) && Canonical(m.file)
    requires Matches(s, p) && Prefers(p, m)
    ensures p == m
  {
    LastColon(s, m, p);
    var both := m.space + m.file;
    assert p.space + p.file == both;
    assert both[|m.space|] == m.file[0];
    forall i | 0 <= i < |p.space| ensures IsBlank(both[i]) {
      assert both[i] == p.space[i];
    }
    assert p.space == both[..|m.space|] == m.space;
    assert p.file == both[|m.space|..] == m.file;
  }

  /** loc is spelled out by the line s, up to the amount of blank space and leading zeros. */
  ghost predicate Spells(s: string, loc: Location, space: string, digits: string) {
    && Matches(s, Match(loc.status, space, loc.file, digits))
    && Canonical(loc.file)
    && Value(digits) == loc.line <= MAX_INT
  }

  /** Exactly which lines are read as which location. */
  lemma ParseLineIff(s: string, loc: Location)
    ensures ParseLine(s) == Some(loc) <==> exists space, digits :: Spells(s, loc, space, digits)
  {
    FindMatchIsPreferred(s);
    if ParseLine(s) == Some(loc) {
      var m := FindMatch(s).value;
      PreferredIsCanonical(s, m);
      assert Spells(s, loc, m.space, m.digits);
    }
    if exists space, digits :: Spells(s, loc, space, digits) {
      var space, digits :| Spells(s, loc, space, digits);
      CanonicalIsPreferred(s, Match(loc.status, space, loc.file, digits), FindMatch(s).value);
    }
  }

  /** A line is skipped exactly if no reading exists or its number does not fit an int. */
  lemma SkippedIff(s: string)
    ensures ParseLine(s) == None <==> forall m :: Matches(s, m) ==> Value(m.digits) > MAX_INT
  {
    FindMatchIsPreferred(s);
    forall m | Matches(s, m) ensures m.digits == FindMatch(s).value.digits {
      LastColon(s, m, FindMatch(s).value);
    }
  }

  /** What the parser guarantees of everything it lets through. */
  lemma ParsedLocation(s: string)
    requires ParseLine(s).Some?
    ensures var loc := ParseLine(s).value;
      IsStatus(loc.status) && Canonical(loc.file) && 0 <= loc.line <= MAX_INT
  {
    ParseLineIff(s, ParseLine(s).value);
  }

  /**
    The lines of the two statuses, in the pattern's own words: what is read is that status, that file and the
    number, unless the number is above the largest 64-bit int; then the line is skipped.
   */
  lemma LiteralLine(status: string, space: string, file: string, digits: string)
    requires status == "pending" || status == "undefined"
    requires space != "" && forall i :: 0 <= i < |space| ==> space[i] as int in {0x09, 0x0A, 0x0C, 0x0D, 0x20}
    requires Canonical(file) && digits != "" && AllDigits(digits)
    ensures ParseLine(status + space + file + ":" + digits)
            == if Value(digits) <= 9223372036854775807 then Some(Location(status, file, Value(digits))) else None
  {
    var s, m := status + space + file + ":" + digits, Match(status, space, file, digits);
    forall i | 0 <= i < |space| ensures IsBlank(space[i]) {
      IsBlankIff(space[i]);
    }
    assert Matches(s, m);
    if Value(digits) <= MAX_INT {
      var loc := Location(status, file, Value(digits));
      assert Spells(s, loc, space, digits);
      ParseLineIff(s, loc);
    } else {
      forall n | Matches(s, n) ensures Value(n.digits) > MAX_INT {
        LastColon(s, m, n);
      }
      SkippedIff(s);
    }
  }

  /** Nothing else is a status. */
  lemma OnlyTwoStatuses(s: string)
    requires ParseLine(s).Some?
    ensures var loc := ParseLine(s).value;
      (loc.status == "pending" || loc.status == "undefined") && loc.status <= s
  {
    var loc := ParseLine(s).value;
    ParseLineIff(s, loc);
    var space, digits :| Spells(s, loc, space, digits);
    CutOfMatch(s, Match(loc.status, space, loc.file, digits));
  }

  // ----- printing and reading back -----

  /** The plain form of a line: status, a blank separator, file, colon and number. */
  function PrintLine(loc: Location, space: string): string
    requires 0 <= loc.line
  {
    loc.status + space + loc.file + ":" + Decimal(loc.line)
  }

  /** Printing and reading back is the identity on a location exactly if its file is canonical. */
  lemma RoundTrip(loc: Location, space: string)
    requires IsStatus(loc.status) && 0 <= loc.line <= MAX_INT
    requires space != "" && AllBlank(space)
    ensures ParseLine(PrintLine(loc, space)) == Some(loc) <==> Canonical(loc.file)
  {
    var s := PrintLine(loc, space);
    ParseLineIff(s, loc);
    if Canonical(loc.file) {
      assert Spells(s, loc, space, Decimal(loc.line));
    }
  }

  /** Reading, printing and reading again changes nothing, whatever the line looked like. */
  lemma NormalForm(s: string, space: string)
    requires ParseLine(s).Some?
    requires space != "" && AllBlank(space)
    ensures ParseLine(PrintLine(ParseLine(s).value, space)) == ParseLine(s)
  {
    ParsedLocation(s);
    RoundTrip(ParseLine(s).value, space);
  }

  // ----- the lines the step runner prints -----

  /** The bytes that jq's @tsv replaces by an escape. */
  predicate IsEscaped(c: char) {
    c == '\\' || c == '\t' || c == '\n' || c == '\r'
  }

  function EscapeByte(c: char): string {
    if c == '\\' then "\\\\"
    else if c == '\t' then "\\t"
    else if c == '\n' then "\\n"
    else if c == '\r' then "\\r"
    else [c]
  }

  /** The four escapes by their bytes: a backslash and a backslash, t, n or r. */
  lemma EscapesAreLiteral()
    ensures Escape("\\") == "\\" + "\\" && Escape("\t") == "\\" + "t"
    ensures Escape("\n") == "\\" + "n" && Escape("\r") == "\\" + "r"
    ensures forall c: char :: c as int !in {0x5C, 0x09, 0x0A, 0x0D} <==> Escape([c]) == [c]
  {
    forall c: char ensures Escape([c]) == EscapeByte(c) {
      assert [c][1..] == "";
    }
  }

  /** A field as @tsv writes it. Nothing in the inventory undoes this. */
  function Escape(s: string): string {
    if s == "" then "" else EscapeByte(s[0]) + Escape(s[1..])
  }

  /** The line printed for a step: status and file:line, both escaped, with a tab between. */
  function TsvLine(loc: Location): string
    requires 0 <= loc.line
  {
    Escape(loc.status) + "\t" + Escape(loc.file + ":" + Decimal(loc.line))
  }

  predicate NeedsNoEscape(s: string) {
    forall i :: 0 <= i < |s| ==> !IsEscaped(s[i])
  }

  lemma {:induction false} EscapeConcat(a: string, b: string)
    ensures Escape(a + b) == Escape(a) + Escape(b)
  {
    if a == "" {
      assert a + b == b;
    } else {
      EscapeConcat(a[1..], b);
      assert (a + b)[0] == a[0] && (a + b)[1..] == a[1..] + b;
      ConcatAssociates(EscapeByte(a[0]), Escape(a[1..]), Escape(b));
    }
  }

  /** Escaping changes exactly the strings that need it, and makes those longer. */
  lemma {:induction false} EscapeLength(s: string)
    ensures NeedsNoEscape(s) ==> Escape(s) == s
    ensures !NeedsNoEscape(s) ==> |Escape(s)| > |s|
  {
    if s == "" {
    } else {
      EscapeLength(s[1..]);
      assert s == [s[0]] + s[1..];
      assert NeedsNoEscape(s) <==> !IsEscaped(s[0]) && NeedsNoEscape(s[1..]);
    }
  }

  /** What is escaped holds no tab, newline or carriage return, and starts as the string did or with a backslash. */
  lemma {:induction false} EscapedBytes(s: string)
    ensures forall i :: 0 <= i < |Escape(s)| ==> Escape(s)[i] != '\t' && Escape(s)[i] != '\n' && Escape(s)[i] != '\r'
    ensures s != "" ==> Escape(s) != "" && (Escape(s)[0] == s[0] || Escape(s)[0] == '\\')
  {
    if s == "" {
    } else {
      EscapedBytes(s[1..]);
    }
  }

  lemma StatusNeedsNoEscape(status: string)
    requires IsStatus(status)
    ensures NeedsNoEscape(status)
  {
  }

  lemma EscapeOfPlace(file: string, digits: string)
    requires AllDigits(digits)
    ensures Escape(file + ":" + digits) == Escape(file) + (":" + digits)
  {
    EscapeConcat(file, ":" + digits);
    EscapeLength(":" + digits);
    ConcatAssociates(file, ":", digits);
  }

  lemma Regroup(a: string, b: string, c: string)
    ensures a + (b + (":" + c)) == a + b + ":" + c
  {
  }

  /** The printed line is the plain form of the escaped file. */
  lemma TsvIsPlain(loc: Location)
    requires IsStatus(loc.status) && 0 <= loc.line
    ensures TsvLine(loc) == PrintLine(loc.(file := Escape(loc.file)), "\t")
  {
    StatusNeedsNoEscape(loc.status);
    EscapeLength(loc.status);
    EscapeOfPlace(loc.file, Decimal(loc.line));
    Regroup(loc.status + "\t", Escape(loc.file), Decimal(loc.line));
  }

  /** What is read from a plain line is a tail of the file that was printed. */
  lemma ReadFileIsTail(loc: Location, space: string, read: Location)
    requires IsStatus(loc.status) && 0 <= loc.line && loc.file != "" && '\n' !in loc.file
    requires space != "" && AllBlank(space)
    requires ParseLine(PrintLine(loc, space)) == Some(read)
    ensures |read.file| <= |loc.file| + |space| - 1
    ensures read.file == (space + loc.file)[|space + loc.file| - |read.file|..]
    ensures Canonical(read.file)
    ensures forall i :: 0 <= i < |space + loc.file| - |read.file| ==> IsBlank((space + loc.file)[i])
  {
    var s := PrintLine(loc, space);
    ParseLineIff(s, read);
    var blanks, digits :| Spells(s, read, blanks, digits);
    var m := Match(loc.status, space, loc.file, Decimal(loc.line));
    var n := Match(read.status, blanks, read.file, digits);
    assert Matches(s, m);
    LastColon(s, m, n);
    var both := space + loc.file;
    assert blanks + read.file == both;
    forall i | 0 <= i < |blanks| ensures IsBlank(both[i]) {
      assert both[i] == blanks[i];
    }
  }

  /**
    The line that the step runner prints is read back as the same location exactly if the file is canonical
    and holds no byte that the runner escapes.
   */
  lemma TsvRoundTrip(loc: Location)
    requires IsStatus(loc.status) && 0 <= loc.line <= MAX_INT
    ensures ParseLine(TsvLine(loc)) == Some(loc) <==> Canonical(loc.file) && NeedsNoEscape(loc.file)
  {
    TsvIsPlain(loc);
    EscapeLength(loc.file);
    if NeedsNoEscape(loc.file) {
      RoundTrip(loc, "\t");
    } else {
      EscapedIsLost(loc);
    }
  }

  lemma EscapedIsLost(loc: Location)
    requires IsStatus(loc.status) && 0 <= loc.line <= MAX_INT
    requires !NeedsNoEscape(loc.file)
    ensures ParseLine(TsvLine(loc)) != Some(loc)
  {
    TsvIsPlain(loc);
    EscapeLength(loc.file);
    EscapedBytes(loc.file);
    LongerIsNotRead(loc.(file := Escape(loc.file)), loc);
  }

  /** A file that is longer than a canonical one and starts alike, or with a backslash, is not read as that one. */
  lemma LongerIsNotRead(printed: Location, loc: Location)
    requires IsStatus(printed.status) && 0 <= printed.line
    requires |printed.file| > |loc.file| > 0 && '\n' !in printed.file
    requires printed.file[0] == loc.file[0] || printed.file[0] == '\\'
    requires |loc.file| == 1 && IsBlank(loc.file[0]) ==> loc.file != printed.file[|printed.file| - 1..]
    ensures ParseLine(PrintLine(printed, "\t")) != Some(loc)
  {
    assert ("\t" + printed.file)[1] == printed.file[0];
    if ParseLine(PrintLine(printed, "\t")) == Some(loc) {
      ReadFileIsTail(printed, "\t", loc);
    }
  }

  lemma EscapeOfBackslash(a: string, b: string)
    requires NeedsNoEscape(a) && NeedsNoEscape(b)
    ensures Escape(a + "\\" + b) == a + "\\\\" + b
  {
    EscapeConcat(a + "\\", b);
    EscapeConcat(a, "\\");
    EscapeLength(a);
    EscapeLength(b);
    assert Escape("\\") == EscapeByte('\\') + Escape("");
  }

  /** If the escaped file is canonical, that is the file which is read. */
  lemma EscapedIsRead(loc: Location)
    requires IsStatus(loc.status) && 0 <= loc.line <= MAX_INT && Canonical(Escape(loc.file))
    ensures ParseLine(TsvLine(loc)) == Some(loc.(file := Escape(loc.file)))
  {
    TsvIsPlain(loc);
    RoundTrip(loc.(file := Escape(loc.file)), "\t");
  }

  lemma CanonicalAround(a: string, middle: string, b: string)
    requires NeedsNoEscape(a) && NeedsNoEscape(b) && a != "" && !IsBlank(a[0])
    requires '\n' !in middle
    ensures Canonical(a + middle + b)
  {
    var file := a + middle + b;
    assert file[0] == a[0];
    assert '\n' !in a && '\n' !in b;
  }

  /** A canonical file name with one backslash always comes back with two. */
  lemma BackslashIsDoubled(loc: Location, a: string, b: string)
    requires IsStatus(loc.status) && 0 <= loc.line <= MAX_INT
    requires NeedsNoEscape(a) && NeedsNoEscape(b) && a != "" && !IsBlank(a[0])
    requires loc.file == a + "\\" + b
    ensures Canonical(loc.file)
    ensures ParseLine(TsvLine(loc)) == Some(loc.(file := a + "\\\\" + b))
  {
    CanonicalAround(a, "\\", b);
    CanonicalAround(a, "\\\\", b);
    EscapeOfBackslash(a, b);
    EscapedIsRead(loc);
  }

  // ----- the scan loop -----

  /** The loop over the scanned lines. */
  method ReadLocations(lines: seq<string>) returns (locations: seq<Location>)
    ensures locations == Collect(lines, ParseLine)
  {
    locations := [];
    for i := 0 to |lines|
      invariant locations == Collect(lines[..i], ParseLine)
    {
      CollectSnoc(lines[..i], lines[i], ParseLine);
      assert lines[..i + 1] == lines[..i] + [lines[i]];
      match ParseLine(lines[i]) {
        case None =>
        case Some(loc) => locations := locations + [loc];
      }
    }
    assert lines[..|lines|] == lines;
  }
}
