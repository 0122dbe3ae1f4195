/**
  The column whitelist of the ingestion step.

  The backend accepts a sheet column when its header matches the regular
  expression `^\s*(e1|e2|...)\s*$` with the `i` flag, where `e1, e2, ...` are
  the whitelist entries (escaped, so that each is matched literally).  This
  module gives two definitions of that test:

  - `RegexMatches`: the meaning of the pattern itself: the header splits into
    a run of whitespace, a part that equals some entry up to case, and a run
    of whitespace;
  - `AcceptsIn`: the header, trimmed of surrounding whitespace, equals some
    entry up to case;

  and proves them equal (`AcceptsInIffRegex`) for entries that neither start
  nor end with whitespace, which the fixed whitelist satisfies.
*/
module Whitelist {

  /** The `\s` class of JavaScript regular expressions (WhiteSpace and LineTerminator). */
  predicate IsSpace(c: char) {
    c == '\t' || c == '\n' || c == '\U{000B}' || c == '\U{000C}' || c == '\r' || c == ' '
    || c == '\U{00A0}' || c == '\U{1680}' || ('\U{2000}' <= c <= '\U{200A}')
    || c == '\U{2028}' || c == '\U{2029}' || c == '\U{202F}' || c == '\U{205F}'
    || c == '\U{3000}' || c == '\U{FEFF}'
  }

  /**
    The character canonicalisation that a case-insensitive, non-Unicode
    JavaScript regular expression applies before comparing two characters:
    a lower-case letter becomes its upper-case partner.  The table covers
    ASCII, Latin-1 except µ (U+00B5) and the further letters of Vietnamese;
    every other character is its own canonical form.  As in JavaScript, a
    character outside ASCII never becomes an ASCII one.
  */
  function Canon(c: char): (r: char)
    ensures (r as int < 128) <==> (c as int < 128)
  {
    var n := c as int;
    if 'a' <= c <= 'z' then (n - 32) as char
    else if 0xE0 <= n <= 0xFE && n != 0xF7 then (n - 32) as char
    else if n == 0xFF then '\U{0178}'
    else if n == 0x103 || n == 0x111 || n == 0x129 || n == 0x169 || n == 0x1A1 then (n - 1) as char
    else if n == 0x1B0 then '\U{01AF}'
    else if 0x1EA1 <= n <= 0x1EF9 && n % 2 == 1 then (n - 1) as char
    else c
  }

  /** A canonical form is its own canonical form. */
  lemma CanonIdempotent(c: char)
    ensures Canon(Canon(c)) == Canon(c)
  {
  }

  /**
    The characters whose canonical form `Canon` gives as JavaScript does:
    ASCII, Latin-1 except µ, the Vietnamese letters with their upper-case
    partners, and the combining marks other than U+0345, which have no case.
  */
  predicate InCaseTable(c: char) {
    var n := c as int;
    (n < 0x100 && n != 0xB5)
    || n == 0x102 || n == 0x103 || n == 0x110 || n == 0x111 || n == 0x128 || n == 0x129
    || n == 0x168 || n == 0x169 || n == 0x178 || n == 0x1A0 || n == 0x1A1 || n == 0x1AF || n == 0x1B0
    || (0x1EA0 <= n <= 0x1EF9)
    || (0x300 <= n <= 0x36F && n != 0x345)
  }

  /** Whitespace characters have no case. */
  lemma CanonFixesSpace(c: char)
    requires IsSpace(c)
    ensures Canon(c) == c
  {
  }

  /** `a` and `b` are equal when compared case-insensitively. */
  predicate CaseEq(a: string, b: string) {
    |a| == |b| && forall i | 0 <= i < |a| :: Canon(a[i]) == Canon(b[i])
  }

  predicate AllSpace(s: string) {
    forall i | 0 <= i < |s| :: IsSpace(s[i])
  }

  /** `s` without its leading whitespace. */
  function TrimStart(s: string): (r: string)
    ensures |r| <= |s| && r == s[|s| - |r|..]
    ensures AllSpace(s[..|s| - |r|])
    ensures r == [] || !IsSpace(r[0])
  {
    if s != [] && IsSpace(s[0]) then
      var r := TrimStart(s[1..]);
      var n := |s| - |r|;
      assert s[1..][n - 1..] == s[n..];
      assert forall i | 1 <= i < n :: s[..n][i] == s[1..][..n - 1][i - 1];
      r
    else s
  }

  /** `s` without its trailing whitespace. */
  function TrimEnd(s: string): (r: string)
    ensures |r| <= |s| && r == s[..|r|]
    ensures AllSpace(s[|r|..])
    ensures r == [] || !IsSpace(r[|r| - 1])
  {
    if s != [] && IsSpace(s[|s| - 1]) then
      var init := s[..|s| - 1];
      var r := TrimEnd(init);
      assert init[..|r|] == s[..|r|];
      assert forall i | 0 <= i < |s| - 1 - |r| :: s[|r|..][i] == init[|r|..][i];
      r
    else s
  }

  /** `s` without surrounding whitespace. */
  function Trim(s: string): string {
    TrimEnd(TrimStart(s))
  }

  /**
    The least the equivalence needs of an entry: it is not empty, and neither
    its first nor its last character is, up to case, whitespace.
  */
  predicate WellFormedEntry(e: string) {
    e != [] && !IsSpace(Canon(e[0])) && !IsSpace(Canon(e[|e| - 1]))
  }

  /**
    What the anchored, case-insensitive alternation accepts: the body is the
    pattern's meaning.  The `ensures` is only a consequence of it (a match
    needs an entry no longer than the header); `AcceptsInIffRegex` relates
    the pattern to the trim-and-compare test.
  */
  ghost predicate RegexMatches(h: string, entries: seq<string>)
    ensures RegexMatches(h, entries) ==> exists k | 0 <= k < |entries| :: |entries[k]| <= |h|
  {
    exists i, j, k | 0 <= i <= j <= |h| && 0 <= k < |entries| ::
      AllSpace(h[..i]) && AllSpace(h[j..]) && CaseEq(h[i..j], entries[k])
  }

  /** The trimmed header equals one of the entries, up to case, trying the entries in order. */
  predicate AcceptsIn(h: string, entries: seq<string>)
    decreases |entries|
  {
    entries != [] && (CaseEq(Trim(h), entries[0]) || AcceptsIn(h, entries[1..]))
  }

  /** The search over the entries finds one exactly when one exists. */
  lemma {:induction false} AcceptsInSome(h: string, entries: seq<string>)
    ensures AcceptsIn(h, entries) <==> exists k | 0 <= k < |entries| :: CaseEq(Trim(h), entries[k])
    decreases |entries|
  {
    if entries != [] {
      AcceptsInSome(h, entries[1..]);
      if exists k | 0 <= k < |entries| :: CaseEq(Trim(h), entries[k]) {
        var k :| 0 <= k < |entries| && CaseEq(Trim(h), entries[k]);
        if k > 0 {
          assert CaseEq(Trim(h), entries[1..][k - 1]);
        }
      }
      if AcceptsIn(h, entries[1..]) {
        var k :| 0 <= k < |entries[1..]| && CaseEq(Trim(h), entries[1..][k]);
        assert CaseEq(Trim(h), entries[k + 1]);
      }
    }
  }

  /** Leading whitespace ends at the first non-whitespace character. */
  lemma {:induction false} TrimStartAt(s: string, i: nat)
    requires i < |s| && AllSpace(s[..i]) && !IsSpace(s[i])
    ensures TrimStart(s) == s[i..]
  {
    if i > 0 {
      assert IsSpace(s[..i][0]);
      assert s[1..][..i - 1] == s[1..i];
      TrimStartAt(s[1..], i - 1);
      assert s[1..][i - 1..] == s[i..];
    }
  }

  /** Trailing whitespace starts after the last non-whitespace character. */
  lemma {:induction false} TrimEndAt(s: string, j: nat)
    requires 0 < j <= |s| && AllSpace(s[j..]) && !IsSpace(s[j - 1])
    ensures TrimEnd(s) == s[..j]
  {
    if j < |s| {
      assert IsSpace(s[j..][|s| - 1 - j]);
      var s' := s[..|s| - 1];
      assert s'[j..] == s[j..|s| - 1];
      TrimEndAt(s', j);
      assert s'[..j] == s[..j];
    }
  }

  /** Trimming leaves the header as leading whitespace, the trimmed part, trailing whitespace. */
  lemma TrimSplits(h: string) returns (i: nat, j: nat)
    ensures i <= j <= |h| && h[i..j] == Trim(h)
    ensures AllSpace(h[..i]) && AllSpace(h[j..])
  {
    var t := TrimStart(h);
    i := |h| - |t|;
    var r := TrimEnd(t);
    j := i + |r|;
    assert t[|r|..] == h[j..];
  }

  /** Trimming removes exactly the whitespace around a part that starts and ends with other characters. */
  lemma TrimAround(h: string, i: nat, j: nat)
    requires i < j <= |h| && AllSpace(h[..i]) && AllSpace(h[j..])
    requires !IsSpace(h[i]) && !IsSpace(h[j - 1])
    ensures Trim(h) == h[i..j]
  {
    TrimStartAt(h, i);
    TrimEndOfSuffix(h, i, j);
  }

  lemma TrimEndOfSuffix(h: string, i: nat, j: nat)
    requires i < j <= |h| && AllSpace(h[j..]) && !IsSpace(h[j - 1])
    ensures TrimEnd(h[i..]) == h[i..j]
  {
    var t := h[i..];
    assert t[j - i - 1] == h[j - 1];
    assert t[j - i..] == h[j..];
    TrimEndAt(t, j - i);
    assert t[..j - i] == h[i..j];
  }

  /** A string that equals a well-formed entry up to case neither starts nor ends with whitespace. */
  lemma CaseEqEnds(m: string, e: string)
    requires WellFormedEntry(e) && CaseEq(m, e)
    ensures m != [] && !IsSpace(m[0]) && !IsSpace(m[|m| - 1])
  {
    assert Canon(m[0]) == Canon(e[0]);
    assert Canon(m[|m| - 1]) == Canon(e[|e| - 1]);
    if IsSpace(m[0]) {
      CanonFixesSpace(m[0]);
    }
    if IsSpace(m[|m| - 1]) {
      CanonFixesSpace(m[|m| - 1]);
    }
  }

  /** A header part that equals a well-formed entry up to case is already trimmed. */
  lemma MatchedPartIsTrim(h: string, i: nat, j: nat, e: string)
    requires i <= j <= |h| && AllSpace(h[..i]) && AllSpace(h[j..])
    requires WellFormedEntry(e) && CaseEq(h[i..j], e)
    ensures Trim(h) == h[i..j]
  {
    CaseEqEnds(h[i..j], e);
    assert h[i..j][0] == h[i] && h[i..j][j - i - 1] == h[j - 1];
    TrimAround(h, i, j);
  }

  lemma AcceptsInImpliesRegex(h: string, entries: seq<string>)
    requires AcceptsIn(h, entries)
    ensures RegexMatches(h, entries)
  {
    AcceptsInSome(h, entries);
    var k :| 0 <= k < |entries| && CaseEq(Trim(h), entries[k]);
    var i, j := TrimSplits(h);
    assert AllSpace(h[..i]) && AllSpace(h[j..]) && CaseEq(h[i..j], entries[k]);
  }

  lemma RegexImpliesAcceptsIn(h: string, entries: seq<string>)
    requires forall k | 0 <= k < |entries| :: WellFormedEntry(entries[k])
    requires RegexMatches(h, entries)
    ensures AcceptsIn(h, entries)
  {
    var i, j, k :| 0 <= i <= j <= |h| && 0 <= k < |entries| &&
      AllSpace(h[..i]) && AllSpace(h[j..]) && CaseEq(h[i..j], entries[k]);
    MatchedPartIsTrim(h, i, j, entries[k]);
    assert CaseEq(Trim(h), entries[k]);
    AcceptsInSome(h, entries);
  }

  /**
    For entries that do not start or end with whitespace, trimming the header
    and comparing it to each entry is exactly what the regular expression does.
  */
  lemma AcceptsInIffRegex(h: string, entries: seq<string>)
    requires forall k | 0 <= k < |entries| :: WellFormedEntry(entries[k])
    ensures AcceptsIn(h, entries) <==> RegexMatches(h, entries)
  {
    if AcceptsIn(h, entries) {
      AcceptsInImpliesRegex(h, entries);
    }
    if RegexMatches(h, entries) {
      RegexImpliesAcceptsIn(h, entries);
    }
  }

  /**
    The whitelist, code point for code point as the backend spells it.  Two
    entries are written in decomposed form (a base letter followed by a
    combining mark): 'link ảnh chỉ căn' spells ả and ỉ with U+0309, and
    'loại quỹ' spells ạ with U+0323 and ỹ with U+0303.
  */
  const AllowedColumns: seq<string> := [
    "t\U{00F2}a",
    "t\U{1EA7}ng",
    "c\U{0103}n",
    "m\U{00E3} c\U{0103}n",
    "t\U{1ED5}ng gi\U{00E1} b\U{00E1}n sau vat v\U{00E0} kpbt",
    "di\U{1EC7}n t\U{00ED}ch tim t\U{01B0}\U{1EDD}ng",
    "h\U{01B0}\U{1EDB}ng",
    "lo\U{1EA1}i c\U{0103}n h\U{1ED9}",
    "link ptg",
    "link a\U{0309}nh chi\U{0309} c\U{0103}n",
    "loa\U{0323}i quy\U{0303}"
  ]

  lemma AllowedColumnsWellFormed()
    ensures forall k | 0 <= k < |AllowedColumns| :: WellFormedEntry(AllowedColumns[k])
  {
  }

  /** Every character of every entry is one whose canonical form the table gives exactly. */
  lemma AllowedColumnsInCaseTable()
    ensures forall k, i | 0 <= k < |AllowedColumns| && 0 <= i < |AllowedColumns[k]| ::
      InCaseTable(AllowedColumns[k][i])
  {
  }

  /**
    The test the backend applies to a header cell: the cell is not empty (a
    JavaScript truthiness test) and it matches the pattern built from
    `allowed`.  The backend uses `AllowedColumns`.
  */
  predicate Accepts(header: string, allowed: seq<string>)
    ensures Accepts(header, allowed) <==>
      header != [] && exists k | 0 <= k < |allowed| :: CaseEq(Trim(header), allowed[k])
  {
    AcceptsInSome(header, allowed);
    header != [] && AcceptsIn(header, allowed)
  }

  /** The test the backend runs on every header cell. */
  const HeaderTest: string -> bool := header => Accepts(header, AllowedColumns)

  /** With the backend's whitelist, `Accepts` is `header && regexPattern.test(header)`. */
  lemma AcceptsIffRegex(header: string)
    ensures Accepts(header, AllowedColumns) <==> header != [] && RegexMatches(header, AllowedColumns)
    ensures HeaderTest(header) <==> header != [] && RegexMatches(header, AllowedColumns)
  {
    AllowedColumnsWellFormed();
    AcceptsInIffRegex(header, AllowedColumns);
  }

  /** A non-empty header whose trimmed form equals some entry up to case is accepted. */
  lemma SomeEntryMatches(h: string, k: nat)
    requires h != [] && k < |AllowedColumns| && CaseEq(Trim(h), AllowedColumns[k])
    ensures HeaderTest(h)
  {
    AcceptsInSome(h, AllowedColumns);
  }

  lemma TrimPadded(h: string)
    requires h == " T\U{00D2}A\t"
    ensures Trim(h) == "T\U{00D2}A"
  {
    assert h[..1] == " " && h[4..] == "\t" && h[1..4] == "T\U{00D2}A";
    TrimAround(h, 1, 4);
  }

  lemma UpperToaMatches()
    ensures AllowedColumns[0] == "t\U{00F2}a"
    ensures CaseEq("T\U{00D2}A", "t\U{00F2}a")
  {
    var e := "t\U{00F2}a";
    assert Canon(e[0]) == 'T' && Canon(e[1]) == '\U{00D2}' && Canon(e[2]) == 'A';
  }

  /** Surrounding whitespace and case do not matter: " TÒA" followed by a tab is the column 'tòa'. */
  lemma PaddedUpperCaseAccepted(h: string)
    requires h == " T\U{00D2}A\t"
    ensures HeaderTest(h)
  {
    TrimPadded(h);
    UpperToaMatches();
    SomeEntryMatches(h, 0);
  }

  /** A header that is already trimmed and equals no entry up to case is rejected. */
  lemma NoEntryMatches(h: string)
    requires h != [] && !IsSpace(h[0]) && !IsSpace(h[|h| - 1])
    requires forall k | 0 <= k < |AllowedColumns| :: !CaseEq(h, AllowedColumns[k])
    ensures !HeaderTest(h)
  {
    TrimAround(h, 0, |h|);
    assert h[0..|h|] == h;
    AcceptsInSome(h, AllowedColumns);
  }

  /** The lengths of the entries, in code points. */
  lemma AllowedLengths()
    ensures forall k | 0 <= k < |AllowedColumns| :: |AllowedColumns[k]| in [3, 4, 3, 6, 28, 19, 5, 11, 8, 18, 10]
  {
  }

  /**
    The entry 'loại quỹ' is spelled with combining marks, and nothing
    normalises the header, so the same words typed with precomposed letters
    (U+1EA1, U+1EF9) are not accepted.
  */
  lemma PrecomposedLoaiQuyRejected(h: string)
    requires h == "lo\U{1EA1}i qu\U{1EF9}"
    ensures !HeaderTest(h)
  {
    AllowedLengths();
    assert AllowedColumns[8] == "link ptg";
    assert !CaseEq(h, AllowedColumns[8]) by {
      assert Canon(h[1]) != Canon(AllowedColumns[8][1]);
    }
    NoEntryMatches(h);
  }

  /** A column that is not on the whitelist is dropped. */
  lemma OtherColumnRejected(h: string)
    requires h == "Ghi ch\U{00FA}"
    ensures !HeaderTest(h)
  {
    AllowedLengths();
    NoEntryMatches(h);
  }
}
