/**
  The string operations the inventory takes from the Go library. A Go string is a sequence of bytes;
  here a byte is the char with that code, so every statement about all strings covers all byte strings,
  including those that are not valid UTF-8.
 */
module GoText {
  import opened Orders

  const NUL: char := '\0'

  // ----- comparison -----

  /** The bytewise order of Go's `<` on strings. */
  predicate Less(a: string, b: string) {
    if b == "" then false
    else if a == "" then true
    else if a[0] != b[0] then a[0] < b[0]
    else Less(a[1..], b[1..])
  }

  lemma {:induction false} LessTransitive(a: string, b: string, c: string)
    ensures !Less(a, a)
    ensures Less(a, b) && Less(b, c) ==> Less(a, c)
    ensures !Less(a, b) && !Less(b, c) ==> !Less(a, c)
  {
    if a != "" && c != "" {
      LessTransitive(a[1..], if b == "" then b else b[1..], c[1..]);
    } else if a != "" {
      LessTransitive(a[1..], "", "");
    }
  }

  lemma {:induction false} LessTotal(a: string, b: string)
    requires !Less(a, b) && !Less(b, a)
    ensures a == b
  {
    if a == "" || b == "" {
    } else {
      LessTotal(a[1..], b[1..]);
      assert a == [a[0]] + a[1..] && b == [b[0]] + b[1..];
    }
  }

  /** a is a proper prefix of b, or has the lesser byte at the first position where they differ. */
  ghost predicate Precedes(a: string, b: string, k: int) {
    0 <= k <= |a| && k < |b| && a[..k] == b[..k] && (k == |a| || a[k] < b[k])
  }

  /** The order in closed form. */
  lemma {:induction false} LessIff(a: string, b: string)
    ensures Less(a, b) <==> exists k :: Precedes(a, b, k)
  {
    if b == "" {
    } else if a == "" || a[0] != b[0] {
      assert Precedes(a, b, 0) <==> Less(a, b);
      assert forall k :: Precedes(a, b, k) && k > 0 ==> a[..k][0] == b[..k][0];
    } else {
      var s, t := a[1..], b[1..];
      LessIff(s, t);
      forall k | Precedes(s, t, k) ensures Precedes(a, b, k + 1) {
        assert a[..k + 1] == [a[0]] + s[..k] && b[..k + 1] == [b[0]] + t[..k];
      }
      forall k | Precedes(a, b, k) ensures Precedes(s, t, k - 1) {
        assert s[..k - 1] == a[..k][1..] && t[..k - 1] == b[..k][1..];
      }
    }
  }

  /** All that a lexicographic comparator needs to know about one field of three items. */
  lemma LessOrders(a: string, b: string, c: string)
    ensures !Less(a, a) && !Less(b, b)
    ensures Less(a, b) && Less(b, c) ==> Less(a, c)
    ensures !Less(a, b) && !Less(b, c) ==> !Less(a, c)
    ensures a != b ==> Less(a, b) != Less(b, a)
    ensures b != c ==> Less(b, c) != Less(c, b)
  {
    LessTransitive(a, b, c);
    LessTransitive(b, a, b);
    LessTransitive(b, c, b);
    if !Less(a, b) && !Less(b, a) { LessTotal(a, b); }
    if !Less(b, c) && !Less(c, b) { LessTotal(b, c); }
  }

  /** Bytewise comparison is lexicographic and a strict total order, so it is a legal comparator without ties. */
  lemma LessIsTotalOrder()
    ensures StrictWeakOrder(Less)
    ensures forall a: string, b: string :: Less(a, b) <==> exists k :: Precedes(a, b, k)
    ensures forall a: string, b: string :: Tied(Less, a, b) ==> a == b
  {
    forall a: string, b: string, c: string
      ensures !Less(a, a)
      ensures Less(a, b) && Less(b, c) ==> Less(a, c)
      ensures !Less(a, b) && !Less(b, c) ==> !Less(a, c)
    {
      LessTransitive(a, b, c);
    }
    forall a: string, b: string | Tied(Less, a, b) ensures a == b {
      LessTotal(a, b);
    }
    forall a: string, b: string ensures Less(a, b) <==> exists k :: Precedes(a, b, k) {
      LessIff(a, b);
    }
  }

  // ----- splitting -----

  /** strings.Split with a one-byte separator. */
  function Split(s: string, sep: char): (parts: seq<string>)
    ensures parts != []
    ensures |parts| >= 2 <==> sep in s
    ensures forall i :: 0 <= i < |parts| ==> sep !in parts[i]
  {
    if s == "" then [""]
    else
      var rest := Split(s[1..], sep);
      if s[0] == sep then [""] + rest else [[s[0]] + rest[0]] + rest[1..]
  }

  lemma {:induction false} SplitChars(s: string, sep: char, i: nat)
    requires i < |Split(s, sep)|
    ensures forall c :: c in Split(s, sep)[i] ==> c in s
  {
    if s == "" {
    } else {
      var rest := Split(s[1..], sep);
      if s[0] != sep {
        SplitChars(s[1..], sep, i);
      } else if i > 0 {
        SplitChars(s[1..], sep, i - 1);
      }
    }
  }

  function Join(parts: seq<string>, sep: char): string
    requires parts != []
  {
    if |parts| == 1 then parts[0] else parts[0] + [sep] + Join(parts[1..], sep)
  }

  lemma {:induction false} JoinSplit(s: string, sep: char)
    ensures Join(Split(s, sep), sep) == s
  {
    if s == "" {
    } else {
      var rest := Split(s[1..], sep);
      JoinSplit(s[1..], sep);
      assert s == [s[0]] + s[1..];
      var parts := Split(s, sep);
      if s[0] == sep {
        assert parts[1..] == rest;
      } else {
        assert parts[1..] == rest[1..];
      }
    }
  }

  /** Splitting a + sep + b cuts at that separator if a has none. */
  lemma {:induction false} SplitFirst(a: string, sep: char, b: string)
    requires sep !in a
    ensures Split(a + [sep] + b, sep) == [a] + Split(b, sep)
  {
    var s := a + [sep] + b;
    if a == "" {
      assert s == [sep] + b;
      assert s[1..] == b;
    } else {
      assert a == [a[0]] + a[1..];
      assert s[1..] == a[1..] + [sep] + b;
      SplitFirst(a[1..], sep, b);
    }
  }

  lemma {:induction false} SplitNone(s: string, sep: char)
    requires sep !in s
    ensures Split(s, sep) == [s]
  {
    if s == "" {
    } else {
      SplitNone(s[1..], sep);
      assert s == [s[0]] + s[1..];
    }
  }

  // ----- filepath.Base on a slash-separated system -----

  function TrimSlashes(path: string): (r: string)
    ensures r <= path
    ensures r == "" || r[|r| - 1] != '/'
    ensures forall i :: |r| <= i < |path| ==> path[i] == '/'
  {
    if path != "" && path[|path| - 1] == '/' then TrimSlashes(path[..|path| - 1]) else path
  }

  function LastElement(path: string): string {
    if path == "" || path[|path| - 1] == '/' then ""
    else LastElement(path[..|path| - 1]) + [path[|path| - 1]]
  }

  /** The last path element, never empty. */
  function BaseName(path: string): (r: string)
    ensures r != ""
  {
    if path == "" then "."
    else
      var stem := TrimSlashes(path);
      if stem == "" then "/" else LastElement(stem)
  }

  lemma {:induction false} LastElementChars(path: string)
    ensures forall c :: c in LastElement(path) ==> c in path && c != '/'
  {
    if path == "" || path[|path| - 1] == '/' {
    } else {
      LastElementChars(path[..|path| - 1]);
    }
  }

  lemma BaseNameChars(path: string)
    ensures forall c :: c in BaseName(path) ==> c in path || c == '.'
  {
    LastElementChars(TrimSlashes(path));
    if path != "" && TrimSlashes(path) == "" {
      assert path[0] in path;
    }
  }

  lemma {:induction false} TrimSlashesOf(stem: string, slashes: string)
    requires stem != "" && stem[|stem| - 1] != '/'
    requires forall i :: 0 <= i < |slashes| ==> slashes[i] == '/'
    ensures TrimSlashes(stem + slashes) == stem
  {
    if slashes == "" {
      assert stem + slashes == stem;
    } else {
      TrimSlashesOf(stem, slashes[..|slashes| - 1]);
      assert (stem + slashes)[..|stem| + |slashes| - 1] == stem + slashes[..|slashes| - 1];
    }
  }

  lemma {:induction false} LastElementOf(dir: string, name: string)
    requires '/' !in name
    requires dir == "" || dir[|dir| - 1] == '/'
    ensures LastElement(dir + name) == name
  {
    if name == "" {
      assert dir + name == dir;
    } else {
      var full, front, last := dir + name, name[..|name| - 1], name[|name| - 1];
      LastElementOf(dir, front);
      assert last in name;
      assert full[..|full| - 1] == dir + front;
      assert full[|full| - 1] == last;
      assert name == front + [last];
    }
  }

  /** The base name is exactly the element after the last slash, trailing slashes set aside. */
  lemma BaseNameOf(dir: string, name: string, slashes: string)
    requires name != "" && '/' !in name
    requires dir == "" || dir[|dir| - 1] == '/'
    requires forall i :: 0 <= i < |slashes| ==> slashes[i] == '/'
    ensures BaseName(dir + name + slashes) == name
  {
    TrimSlashesOf(dir + name, slashes);
    LastElementOf(dir, name);
  }

  lemma {:induction false} LastElementCuts(path: string) returns (dir: string)
    ensures path == dir + LastElement(path)
    ensures dir == "" || dir[|dir| - 1] == '/'
    ensures '/' !in LastElement(path)
  {
    if path == "" || path[|path| - 1] == '/' {
      dir := path;
    } else {
      dir := LastElementCuts(path[..|path| - 1]);
    }
  }

  /** Every path is directories, a name and slashes, and the base name is the name; "." and "/" stand in for none. */
  lemma BaseNameCases(path: string) returns (dir: string, name: string, slashes: string)
    ensures path == dir + name + slashes
    ensures dir == "" || dir[|dir| - 1] == '/'
    ensures '/' !in name && (name == "" ==> dir == "")
    ensures forall i :: 0 <= i < |slashes| ==> slashes[i] == '/'
    ensures BaseName(path) == if path == "" then "." else if name == "" then "/" else name
  {
    var stem := TrimSlashes(path);
    slashes := path[|stem|..];
    name := LastElement(stem);
    dir := LastElementCuts(stem);
  }

  // ----- strings.TrimSpace -----

  /** The UTF-8 encodings, of one, two and three bytes, of the code points that unicode.IsSpace accepts. */
  predicate Space1(c: char) {
    c == ' ' || '\t' <= c <= '\r'
  }

  predicate Space2(c: char, d: char) {
    c == '\U{C2}' && (d == '\U{85}' || d == '\U{A0}')
  }

  predicate Space3(c: char, d: char, e: char) {
    || (c == '\U{E1}' && d == '\U{9A}' && e == '\U{80}')
    || (c == '\U{E2}' && d == '\U{80}' && '\U{80}' <= e <= '\U{8A}')
    || (c == '\U{E2}' && d == '\U{80}' && (e == '\U{A8}' || e == '\U{A9}' || e == '\U{AF}'))
    || (c == '\U{E2}' && d == '\U{81}' && e == '\U{9F}')
    || (c == '\U{E3}' && d == '\U{80}' && e == '\U{80}')
  }

  predicate IsSpaceRune(e: string) {
    || (|e| == 1 && Space1(e[0]))
    || (|e| == 2 && Space2(e[0], e[1]))
    || (|e| == 3 && Space3(e[0], e[1], e[2]))
  }

  /** The code points that unicode.IsSpace accepts. */
  predicate IsSpaceCodePoint(u: int) {
    || 0x09 <= u <= 0x0D || u == 0x20 || u == 0x85 || u == 0xA0 || u == 0x1680
    || 0x2000 <= u <= 0x200A || u == 0x2028 || u == 0x2029 || u == 0x202F || u == 0x205F || u == 0x3000
  }

  /** The UTF-8 encoding of a code point below 0x10000, in one to three bytes. */
  function Utf8(u: int): string
    requires 0 <= u < 0x10000
  {
    if u < 0x80 then [u as char]
    else if u < 0x800 then [(0xC0 + u / 0x40) as char, (0x80 + u % 0x40) as char]
    else [(0xE0 + u / 0x1000) as char, (0x80 + u / 0x40 % 0x40) as char, (0x80 + u % 0x40) as char]
  }

  /** The number that one to three bytes encode. */
  function CodePoint(e: string): int
    requires 1 <= |e| <= 3
  {
    if |e| == 1 then e[0] as int
    else if |e| == 2 then (e[0] as int - 0xC0) * 0x40 + (e[1] as int - 0x80)
    else (e[0] as int - 0xE0) * 0x1000 + (e[1] as int - 0x80) * 0x40 + (e[2] as int - 0x80)
  }

  lemma SpaceEncodes(u: int)
    requires 0 <= u < 0x10000 && IsSpaceCodePoint(u)
    ensures IsSpaceRune(Utf8(u))
  {
  }

  lemma ThreeBytesDecode(c: char, d: char, e: char)
    requires Space3(c, d, e)
    ensures var u := CodePoint([c, d, e]); 0x800 <= u < 0x10000 && IsSpaceCodePoint(u) && Utf8(u) == [c, d, e]
  {
  }

  lemma SpaceDecodes(e: string)
    requires IsSpaceRune(e)
    ensures var u := CodePoint(e); 0 <= u < 0x10000 && IsSpaceCodePoint(u) && Utf8(u) == e
  {
    if |e| == 3 {
      ThreeBytesDecode(e[0], e[1], e[2]);
      assert e == [e[0], e[1], e[2]];
    }
  }

  /** The whitespace runes are the encodings of the whitespace code points. */
  lemma IsSpaceRuneIff(e: string)
    ensures IsSpaceRune(e) <==> exists u :: 0 <= u < 0x10000 && IsSpaceCodePoint(u) && e == Utf8(u)
  {
    if IsSpaceRune(e) {
      SpaceDecodes(e);
    }
    forall u | 0 <= u < 0x10000 && IsSpaceCodePoint(u) ensures IsSpaceRune(Utf8(u)) {
      SpaceEncodes(u);
    }
  }

  /** The length of the whitespace rune at the front of s, 0 if there is none. */
  function LeadingSpace(s: string): (k: nat)
    ensures k <= |s|
  {
    if |s| >= 1 && Space1(s[0]) then 1
    else if |s| >= 2 && Space2(s[0], s[1]) then 2
    else if |s| >= 3 && Space3(s[0], s[1], s[2]) then 3
    else 0
  }

  /** The length of the whitespace rune at the end of s, 0 if there is none. */
  function TrailingSpace(s: string): (k: nat)
    ensures k <= |s|
  {
    var n := |s|;
    if n >= 1 && Space1(s[n - 1]) then 1
    else if n >= 2 && Space2(s[n - 2], s[n - 1]) then 2
    else if n >= 3 && Space3(s[n - 3], s[n - 2], s[n - 1]) then 3
    else 0
  }

  /** The two measures find a rune of any length, if there is one. */
  lemma SpaceAtEnds(s: string, n: nat)
    requires n <= |s|
    ensures LeadingSpace(s) > 0 ==> IsSpaceRune(s[..LeadingSpace(s)])
    ensures TrailingSpace(s) > 0 ==> IsSpaceRune(s[|s| - TrailingSpace(s)..])
    ensures IsSpaceRune(s[..n]) ==> LeadingSpace(s) > 0
    ensures IsSpaceRune(s[n..]) ==> TrailingSpace(s) > 0
  {
  }

  function TrimLeft(s: string): string {
    var k := LeadingSpace(s);
    if k == 0 then s else TrimLeft(s[k..])
  }

  function TrimRight(s: string): string {
    var k := TrailingSpace(s);
    if k == 0 then s else TrimRight(s[..|s| - k])
  }

  function TrimSpace(s: string): string {
    TrimRight(TrimLeft(s))
  }

  function Flat(runes: seq<string>): string {
    if runes == [] then "" else Flat(runes[..|runes| - 1]) + runes[|runes| - 1]
  }

  lemma {:induction false} FlatCons(rune: string, runes: seq<string>)
    ensures Flat([rune] + runes) == rune + Flat(runes)
  {
    if runes == [] {
      assert [rune] + runes == [rune];
    } else {
      var front, last := runes[..|runes| - 1], runes[|runes| - 1];
      FlatCons(rune, front);
      assert ([rune] + runes)[..|runes|] == [rune] + front;
      assert (rune + Flat(front)) + last == rune + (Flat(front) + last);
    }
  }

  lemma ConcatAssociates(a: string, b: string, c: string)
    ensures a + (b + c) == a + b + c
  {
  }

  ghost predicate AllSpace(runes: seq<string>) {
    forall i :: 0 <= i < |runes| ==> IsSpaceRune(runes[i])
  }

  lemma PrependRune(s: string, k: nat, more: seq<string>, rest: string)
    requires k <= |s| && IsSpaceRune(s[..k]) && AllSpace(more)
    requires s[k..] == Flat(more) + rest
    ensures AllSpace([s[..k]] + more) && s == Flat([s[..k]] + more) + rest
  {
    FlatCons(s[..k], more);
    ConcatAssociates(s[..k], Flat(more), rest);
    assert s == s[..k] + s[k..];
  }

  lemma AppendRune(s: string, n: nat, more: seq<string>, rest: string)
    requires n <= |s| && IsSpaceRune(s[n..]) && AllSpace(more)
    requires s[..n] == rest + Flat(more)
    ensures AllSpace(more + [s[n..]]) && s == rest + Flat(more + [s[n..]])
  {
    assert (more + [s[n..]])[..|more|] == more;
    ConcatAssociates(rest, Flat(more), s[n..]);
    assert s == s[..n] + s[n..];
  }

  lemma {:induction false} TrimLeftCuts(s: string) returns (runes: seq<string>)
    ensures AllSpace(runes) && s == Flat(runes) + TrimLeft(s)
    ensures LeadingSpace(TrimLeft(s)) == 0
  {
    var k := LeadingSpace(s);
    if k == 0 {
      runes := [];
    } else {
      var more := TrimLeftCuts(s[k..]);
      SpaceAtEnds(s, 0);
      PrependRune(s, k, more, TrimLeft(s[k..]));
      runes := [s[..k]] + more;
    }
  }

  lemma {:induction false} TrimRightCuts(s: string) returns (runes: seq<string>)
    ensures AllSpace(runes) && s == TrimRight(s) + Flat(runes)
    ensures TrailingSpace(TrimRight(s)) == 0
  {
    var n := |s| - TrailingSpace(s);
    if n == |s| {
      runes := [];
    } else {
      var more := TrimRightCuts(s[..n]);
      SpaceAtEnds(s, 0);
      AppendRune(s, n, more, TrimRight(s[..n]));
      runes := more + [s[n..]];
    }
  }

  /** Cutting off the end of a string does not make its front start with whitespace. */
  lemma LeadingSpaceOfPrefix(r: string, t: string)
    requires r <= t && LeadingSpace(t) == 0
    ensures LeadingSpace(r) == 0
  {
  }

  /** A string is whitespace runes, its trimmed text, and whitespace runes. */
  lemma TrimSpaceCuts(s: string) returns (left: seq<string>, right: seq<string>)
    ensures AllSpace(left) && AllSpace(right)
    ensures s == Flat(left) + TrimSpace(s) + Flat(right)
  {
    var t := TrimLeft(s);
    left := TrimLeftCuts(s);
    right := TrimRightCuts(t);
    ConcatAssociates(Flat(left), TrimRight(t), Flat(right));
  }

  /** The trimmed text has no whitespace rune at either end. */
  lemma TrimSpaceIsClean(s: string, n: nat)
    requires n <= |TrimSpace(s)|
    ensures !IsSpaceRune(TrimSpace(s)[..n]) && !IsSpaceRune(TrimSpace(s)[n..])
  {
    var t := TrimLeft(s);
    var left := TrimLeftCuts(s);
    var right := TrimRightCuts(t);
    LeadingSpaceOfPrefix(TrimRight(t), t);
    SpaceAtEnds(TrimRight(t), n);
  }

  // ----- decimal numerals -----

  predicate IsDigit(c: char) {
    '0' <= c <= '9'
  }

  predicate AllDigits(s: string) {
    forall i :: 0 <= i < |s| ==> IsDigit(s[i])
  }

  /** The number a digit string denotes, leading zeros included. */
  function Value(digits: string): nat
    requires AllDigits(digits)
  {
    if digits == "" then 0
    else Value(digits[..|digits| - 1]) * 10 + (digits[|digits| - 1] as int - '0' as int)
  }

  lemma IsDigitIff(c: char)
    ensures IsDigit(c) <==> exists k :: 0 <= k < 10 && c == "0123456789"[k]
  {
    if IsDigit(c) {
      assert c == "0123456789"[c as int - '0' as int];
    }
  }

  function Power10(n: nat): nat {
    if n == 0 then 1 else 10 * Power10(n - 1)
  }

  /** The positional law. With the value of a single digit it fixes the value of every numeral. */
  lemma {:induction false} ValueConcat(a: string, b: string)
    requires AllDigits(a) && AllDigits(b)
    ensures AllDigits(a + b) && Value(a + b) == Value(a) * Power10(|b|) + Value(b)
  {
    if b == "" {
      assert a + b == a;
    } else {
      var front, last := b[..|b| - 1], b[|b| - 1];
      ValueConcat(a, front);
      assert (a + b)[..|a| + |front|] == a + front;
      assert (a + b)[|a| + |front|] == last;
      ShiftDigit(Value(a), Power10(|front|), Value(front));
    }
  }

  lemma ShiftDigit(x: nat, p: nat, y: nat)
    ensures (x * p + y) * 10 == x * (10 * p) + y * 10
  {
  }

  lemma ValueOfDigit(k: nat)
    requires k < 10
    ensures AllDigits(["0123456789"[k]]) && Value(["0123456789"[k]]) == k
    ensures Decimal(k) == ["0123456789"[k]]
  {
    var d := ["0123456789"[k]];
    assert d[..0] == "";
    assert d[0] as int == '0' as int + k;
  }

  lemma ValueLeadingZero(s: string)
    requires AllDigits(s)
    ensures AllDigits("0" + s) && Value("0" + s) == Value(s)
  {
    ValueOfDigit(0);
    assert "0" == ["0123456789"[0]];
    ValueConcat("0", s);
  }

  lemma {:induction false} ValueBound(s: string)
    requires AllDigits(s)
    ensures Value(s) < Power10(|s|)
  {
    if s == "" {
    } else {
      ValueBound(s[..|s| - 1]);
    }
  }

  /** Numerals of one length compare as their bytes do. */
  lemma {:induction false} ValueOrder(a: string, b: string)
    requires AllDigits(a) && AllDigits(b) && |a| == |b|
    ensures Value(a) < Value(b) <==> Less(a, b)
    ensures Value(a) < Value(b) <==> exists k :: Precedes(a, b, k)
  {
    LessIff(a, b);
    if a == "" {
    } else {
      var s, t := a[1..], b[1..];
      ValueOrder(s, t);
      ValueHead(a);
      ValueHead(b);
      ValueBound(s);
      ValueBound(t);
      LeadingDigitDecides(a[0] as int - '0' as int, b[0] as int - '0' as int, Power10(|s|), Value(s), Value(t));
    }
  }

  lemma LeadingDigitDecides(x: nat, y: nat, p: nat, u: nat, v: nat)
    requires u < p && v < p
    ensures x * p + u < y * p + v <==> x < y || (x == y && u < v)
  {
    if x < y {
      NextMultiple(x, y, p);
    } else if y < x {
      NextMultiple(y, x, p);
    }
  }

  lemma NextMultiple(x: nat, y: nat, p: nat)
    requires x < y
    ensures x * p + p <= y * p
  {
    assert y * p == x * p + p + (y - x - 1) * p;
  }

  lemma ValueHead(a: string)
    requires AllDigits(a) && a != ""
    ensures Value(a) == (a[0] as int - '0' as int) * Power10(|a| - 1) + Value(a[1..])
  {
    assert a == a[..1] + a[1..];
    ValueConcat(a[..1], a[1..]);
    assert Value(a[..1]) == a[0] as int - '0' as int by { assert a[..1][..0] == ""; }
  }

  /** The `%d` form of a natural number. */
  function Decimal(n: nat): (s: string)
    ensures s != "" && AllDigits(s)
    ensures Value(s) == n
    ensures n > 0 ==> s[0] != '0'
  {
    var d := [('0' as int + n % 10) as char];
    if n < 10 then d else Decimal(n / 10) + d
  }
}
