/**
  The text form of a snapshot.  The backend stores `JSON.stringify(records)`
  and the read endpoint answers with `JSON.parse` of the stored text.  This
  module writes both for what the backend stores, an array of objects whose
  values are all strings, and proves that parsing the stringified form gives
  the records back whenever no record repeats a key.
*/
module Json {
  import opened Wrappers
  import opened Records

  // ---------------------------------------------------------------------
  // JSON.stringify
  // ---------------------------------------------------------------------

  /** A lower-case hexadecimal digit, as `JSON.stringify` writes them. */
  function HexDigit(d: nat): (c: char)
    requires d < 16
    ensures HexValue(c) == Some(d)
  {
    if d < 10 then (('0' as int) + d) as char else (('a' as int) + d - 10) as char
  }

  /** How `JSON.stringify` writes one character inside a string literal. */
  function EscapeChar(c: char): string {
    if c == '\"' then "\\\""
    else if c == '\\' then "\\\\"
    else if c == '\U{0008}' then "\\b"
    else if c == '\U{000C}' then "\\f"
    else if c == '\n' then "\\n"
    else if c == '\r' then "\\r"
    else if c == '\t' then "\\t"
    else if c < ' ' then "\\u00" + [HexDigit(c as int / 16), HexDigit(c as int % 16)]
    else [c]
  }

  function Escape(s: string): string {
    if s == [] then [] else EscapeChar(s[0]) + Escape(s[1..])
  }

  /** A string literal. */
  function Quote(s: string): string {
    "\"" + Escape(s) + "\""
  }

  function Pair(kv: (string, string)): string {
    Quote(kv.0) + ":" + Quote(kv.1)
  }

  /** The members of a non-empty object, separated by commas, in key order. */
  function Members(r: Record): string
    requires r != []
  {
    if |r| == 1 then Pair(r[0]) else Pair(r[0]) + "," + Members(r[1..])
  }

  function StringifyRecord(r: Record): string {
    if r == [] then "{}" else "{" + Members(r) + "}"
  }

  function Elements(rs: seq<Record>): string
    requires rs != []
  {
    if |rs| == 1 then StringifyRecord(rs[0]) else StringifyRecord(rs[0]) + "," + Elements(rs[1..])
  }

  /** `JSON.stringify(records)`: no whitespace, keys in insertion order. */
  function Stringify(rs: seq<Record>): (t: string)
    ensures |t| >= 2 && t[0] == '[' && t[|t| - 1] == ']'
    ensures |t| == 2 <==> rs == []
  {
    if rs == [] then "[]" else "[" + Elements(rs) + "]"
  }

  // ---------------------------------------------------------------------
  // JSON.parse
  // ---------------------------------------------------------------------

  predicate IsWs(c: char) {
    c == ' ' || c == '\t' || c == '\n' || c == '\r'
  }

  /** Skips the whitespace JSON allows between tokens. */
  function SkipWs(s: string): (t: string)
    ensures |t| <= |s|
  {
    if s != [] && IsWs(s[0]) then SkipWs(s[1..]) else s
  }

  function HexValue(c: char): Option<nat> {
    if '0' <= c <= '9' then Some(c as int - '0' as int)
    else if 'a' <= c <= 'f' then Some(c as int - 'a' as int + 10)
    else if 'A' <= c <= 'F' then Some(c as int - 'A' as int + 10)
    else None
  }

  /**
    The character an escape sequence stands for, `s` being the text after
    the backslash, and the text after the sequence.  A `\u` escape of a
    UTF-16 surrogate is refused (see the README).
  */
  function ParseEscape(s: string): (r: Option<(char, string)>)
    ensures r.Some? ==> |r.value.1| < |s|
  {
    if s == [] then None
    else if s[0] == '\"' then Some(('\"', s[1..]))
    else if s[0] == '\\' then Some(('\\', s[1..]))
    else if s[0] == '/' then Some(('/', s[1..]))
    else if s[0] == 'b' then Some(('\U{0008}', s[1..]))
    else if s[0] == 'f' then Some(('\U{000C}', s[1..]))
    else if s[0] == 'n' then Some(('\n', s[1..]))
    else if s[0] == 'r' then Some(('\r', s[1..]))
    else if s[0] == 't' then Some(('\t', s[1..]))
    else if s[0] == 'u' && |s| >= 5
      && HexValue(s[1]).Some? && HexValue(s[2]).Some? && HexValue(s[3]).Some? && HexValue(s[4]).Some?
    then
      var n := HexValue(s[1]).value * 4096 + HexValue(s[2]).value * 256
             + HexValue(s[3]).value * 16 + HexValue(s[4]).value;
      if 0xD800 <= n <= 0xDFFF then None else Some((n as char, s[5..]))
    else None
  }

  /** The rest of a string literal after its opening quote: its value and the text after it. */
  function ParseStringBody(s: string): (r: Option<(string, string)>)
    ensures r.Some? ==> |r.value.1| < |s|
    decreases |s|
  {
    if s == [] then None
    else if s[0] == '\"' then Some(([], s[1..]))
    else if s[0] < ' ' then None
    else if s[0] == '\\' then
      match ParseEscape(s[1..])
      case None => None
      case Some((c, t)) =>
        match ParseStringBody(t)
        case None => None
        case Some((body, rest)) => Some(([c] + body, rest))
    else
      match ParseStringBody(s[1..])
      case None => None
      case Some((body, rest)) => Some(([s[0]] + body, rest))
  }

  function ParseString(s: string): (r: Option<(string, string)>)
    ensures r.Some? ==> |r.value.1| < |s|
  {
    if s != [] && s[0] == '\"' then ParseStringBody(s[1..]) else None
  }

  /**
    The members of an object, from the first key on, added to `acc` as
    `JSON.parse` adds them: a repeated key keeps its first place and takes
    the last value.
  */
  function ParseMembers(s: string, acc: Record): (r: Option<(Record, string)>)
    ensures r.Some? ==> |r.value.1| < |s|
    decreases |s|
  {
    match ParseString(SkipWs(s))
    case None => None
    case Some((k, s1)) =>
      var s2 := SkipWs(s1);
      if s2 == [] || s2[0] != ':' then None
      else
        match ParseString(SkipWs(s2[1..]))
        case None => None
        case Some((v, s3)) =>
          var s4 := SkipWs(s3);
          var acc' := Put(acc, k, v);
          if s4 != [] && s4[0] == ',' then ParseMembers(s4[1..], acc')
          else if s4 != [] && s4[0] == '}' then Some((acc', s4[1..]))
          else None
  }

  function ParseObject(s: string): (r: Option<(Record, string)>)
    ensures r.Some? ==> |r.value.1| < |s|
  {
    var s1 := SkipWs(s);
    if s1 == [] || s1[0] != '{' then None
    else
      var s2 := SkipWs(s1[1..]);
      if s2 != [] && s2[0] == '}' then Some(([], s2[1..]))
      else ParseMembers(s2, [])
  }

  /** The elements of an array, from the first element on, appended to `acc`. */
  function ParseElements(s: string, acc: seq<Record>): (r: Option<(seq<Record>, string)>)
    ensures r.Some? ==> |r.value.1| < |s|
    decreases |s|
  {
    match ParseObject(s)
    case None => None
    case Some((o, s1)) =>
      var s2 := SkipWs(s1);
      if s2 != [] && s2[0] == ',' then ParseElements(s2[1..], acc + [o])
      else if s2 != [] && s2[0] == ']' then Some((acc + [o], s2[1..]))
      else None
  }

  function ParseArray(s: string): (r: Option<(seq<Record>, string)>)
    ensures r.Some? ==> |r.value.1| < |s|
  {
    var s1 := SkipWs(s);
    if s1 == [] || s1[0] != '[' then None
    else
      var s2 := SkipWs(s1[1..]);
      if s2 != [] && s2[0] == ']' then Some(([], s2[1..]))
      else ParseElements(s2, [])
  }

  /** `JSON.parse(text)` for an array of objects with string values; `None` for anything else. */
  function Parse(text: string): (r: Option<seq<Record>>)
    ensures r.Some? ==> SkipWs(text) != [] && SkipWs(text)[0] == '['
  {
    match ParseArray(text)
    case None => None
    case Some((v, rest)) => if SkipWs(rest) == [] then Some(v) else None
  }

  // ---------------------------------------------------------------------
  // Round trip
  // ---------------------------------------------------------------------

  /** Reading one escaped character gives the character back. */
  lemma EscapeCharRoundTrip(c: char, t: string)
    ensures ParseStringBody(EscapeChar(c) + t)
         == match ParseStringBody(t)
            case None => None
            case Some((body, rest)) => Some(([c] + body, rest))
  {
    var e := EscapeChar(c);
    var s := e + t;
    if c == '\"' || c == '\\' || c == '\U{0008}' || c == '\U{000C}' || c == '\n' || c == '\r' || c == '\t' {
      assert s[0] == '\\' && s[1..] == [e[1]] + t;
    } else if c < ' ' {
      var n := c as int;
      var h1, h2 := HexDigit(n / 16), HexDigit(n % 16);
      assert s[0] == '\\' && s[1..] == ['u', '0', '0', h1, h2] + t;
      assert ParseEscape(s[1..]) == Some((c, t));
    } else {
      assert s[0] == c && s[1..] == t;
    }
  }

  lemma {:induction false} EscapeRoundTrip(x: string, rest: string)
    ensures ParseStringBody(Escape(x) + ("\"" + rest)) == Some((x, rest))
    decreases |x|
  {
    if x == [] {
      assert Escape(x) + ("\"" + rest) == "\"" + rest;
    } else {
      var t := Escape(x[1..]) + ("\"" + rest);
      assert Escape(x) + ("\"" + rest) == EscapeChar(x[0]) + t;
      EscapeRoundTrip(x[1..], rest);
      EscapeCharRoundTrip(x[0], t);
      assert [x[0]] + x[1..] == x;
    }
  }

  /** A string literal reads back as the string, whatever follows it; no whitespace precedes it. */
  lemma QuoteRoundTrip(x: string, rest: string)
    ensures SkipWs(Quote(x) + rest) == Quote(x) + rest
    ensures ParseString(Quote(x) + rest) == Some((x, rest))
  {
    var s := Quote(x) + rest;
    assert s == "\"" + (Escape(x) + ("\"" + rest));
    assert s[0] == '\"';
    assert s[1..] == Escape(x) + ("\"" + rest);
    EscapeRoundTrip(x, rest);
  }

  /** How `ParseMembers` reads one member, given how its two strings read. */
  lemma MemberSteps(s: string, k: string, s1: string, v: string, tail: string, acc: Record)
    requires SkipWs(s) == s && ParseString(s) == Some((k, s1))
    requires s1 != [] && s1[0] == ':'
    requires SkipWs(s1[1..]) == s1[1..] && ParseString(s1[1..]) == Some((v, tail))
    requires tail != [] && (tail[0] == ',' || tail[0] == '}')
    ensures ParseMembers(s, acc)
         == if tail[0] == ',' then ParseMembers(tail[1..], Put(acc, k, v))
            else Some((Put(acc, k, v), tail[1..]))
  {
    assert SkipWs(s1) == s1;
    assert SkipWs(tail) == tail;
  }

  /** One member, followed by a comma or the closing brace. */
  lemma MemberStep(k: string, v: string, tail: string, acc: Record)
    requires tail != [] && (tail[0] == ',' || tail[0] == '}')
    ensures ParseMembers(Quote(k) + (":" + (Quote(v) + tail)), acc)
         == if tail[0] == ',' then ParseMembers(tail[1..], Put(acc, k, v))
            else Some((Put(acc, k, v), tail[1..]))
  {
    var s1 := ":" + (Quote(v) + tail);
    QuoteRoundTrip(k, s1);
    assert s1[0] == ':' && s1[1..] == Quote(v) + tail;
    QuoteRoundTrip(v, tail);
    MemberSteps(Quote(k) + s1, k, s1, v, tail, acc);
  }

  /** The first key of `r` is not among the keys of `acc`, when `acc + r` has distinct keys. */
  lemma FreshNext(acc: Record, r: Record)
    requires r != [] && DistinctKeys(acc + r)
    ensures r[0].0 !in Keys(acc)
  {
    var k := r[0].0;
    assert Keys(acc + r)[|acc|] == k;
    forall p | 0 <= p < |acc|
      ensures Keys(acc)[p] != k
    {
      assert Keys(acc)[p] == Keys(acc + r)[p];
    }
  }

  /** Adding the next member of a record with distinct keys appends it. */
  lemma PutNext(acc: Record, r: Record)
    requires r != [] && DistinctKeys(acc + r)
    ensures Put(acc, r[0].0, r[0].1) == acc + [r[0]]
  {
    FreshNext(acc, r);
    PutFresh(acc, r[0].0, r[0].1);
  }

  lemma MoveFirst<T>(a: seq<T>, b: seq<T>)
    requires b != []
    ensures a + [b[0]] + b[1..] == a + b
  {
  }

  /** The text of the members with what follows them, as the parser reads it. */
  lemma MembersText(r: Record, rest: string)
    requires r != []
    ensures Members(r) + ("}" + rest)
         == Quote(r[0].0) + (":" + (Quote(r[0].1) +
              (if |r| == 1 then "}" + rest else "," + (Members(r[1..]) + ("}" + rest)))))
  {
    var k, v := r[0].0, r[0].1;
    if |r| == 1 {
      Regroup(Quote(k), ":", Quote(v), "}" + rest);
    } else {
      var p, m := Pair(r[0]), Members(r[1..]);
      assert Members(r) == p + "," + m;
      Regroup(p, ",", m, "}" + rest);
      Regroup(Quote(k), ":", Quote(v), "," + (m + ("}" + rest)));
    }
  }

  /** Concatenation regrouped to the right. */
  lemma Regroup(a: string, b: string, c: string, d: string)
    ensures a + b + c + d == a + (b + (c + d))
  {
  }

  lemma {:induction false} MembersRoundTrip(r: Record, acc: Record, rest: string)
    requires r != [] && DistinctKeys(acc + r)
    ensures ParseMembers(Members(r) + ("}" + rest), acc) == Some((acc + r, rest))
    decreases |r|
  {
    var tail := if |r| == 1 then "}" + rest else "," + (Members(r[1..]) + ("}" + rest));
    MembersText(r, rest);
    MemberStep(r[0].0, r[0].1, tail, acc);
    PutNext(acc, r);
    MoveFirst(acc, r);
    if |r| == 1 {
      assert acc + [r[0]] == acc + r;
    } else {
      MembersRoundTrip(r[1..], acc + [r[0]], rest);
    }
  }

  /** The members' text starts with a quote. */
  lemma MembersStart(r: Record, rest: string)
    requires r != []
    ensures var m := Members(r) + ("}" + rest); m != [] && m[0] == '\"' && SkipWs(m) == m
  {
    var tail := if |r| == 1 then "}" + rest else "," + (Members(r[1..]) + ("}" + rest));
    MembersText(r, rest);
    var q := Quote(r[0].0);
    assert q[0] == '\"';
    assert (q + (":" + (Quote(r[0].1) + tail)))[0] == q[0];
  }

  /** How `ParseObject` starts on an object that is not empty. */
  lemma ObjectSteps(s: string, body: string)
    requires s != [] && s[0] == '{' && s[1..] == body
    requires body != [] && body[0] == '\"' && SkipWs(body) == body
    ensures SkipWs(s) == s
    ensures ParseObject(s) == ParseMembers(body, [])
  {
  }

  lemma MembersRecordRoundTrip(r: Record, rest: string)
    requires r != [] && DistinctKeys(r)
    ensures var s := "{" + (Members(r) + ("}" + rest));
      SkipWs(s) == s && ParseObject(s) == Some((r, rest))
  {
    var m := Members(r) + ("}" + rest);
    var s := "{" + m;
    assert s[0] == '{' && s[1..] == m;
    MembersStart(r, rest);
    ObjectSteps(s, m);
    assert [] + r == r;
    MembersRoundTrip(r, [], rest);
  }

  /** A record with distinct keys reads back as itself, whatever follows it. */
  lemma RecordRoundTrip(r: Record, rest: string)
    requires DistinctKeys(r)
    ensures SkipWs(StringifyRecord(r) + rest) == StringifyRecord(r) + rest
    ensures ParseObject(StringifyRecord(r) + rest) == Some((r, rest))
  {
    if r == [] {
      var s := StringifyRecord(r) + rest;
      assert s == "{" + ("}" + rest);
      assert s[0] == '{' && s[1..] == "}" + rest;
    } else {
      MembersRecordRoundTrip(r, rest);
      Regroup("{", Members(r), "}", rest);
    }
  }

  /** The text of the elements with what follows them, as the parser reads it. */
  lemma ElementsText(rs: seq<Record>, rest: string)
    requires rs != []
    ensures Elements(rs) + ("]" + rest)
         == StringifyRecord(rs[0]) + (if |rs| == 1 then "]" + rest else "," + (Elements(rs[1..]) + ("]" + rest)))
  {
    if |rs| > 1 {
      var o, e := StringifyRecord(rs[0]), Elements(rs[1..]);
      assert Elements(rs) == o + "," + e;
      Regroup(o, ",", e, "]" + rest);
    }
  }

  /** How `ParseElements` reads one element, given how the element reads. */
  lemma ElementSteps(s: string, o: Record, tail: string, acc: seq<Record>)
    requires ParseObject(s) == Some((o, tail))
    requires tail != [] && (tail[0] == ',' || tail[0] == ']')
    ensures ParseElements(s, acc)
         == if tail[0] == ',' then ParseElements(tail[1..], acc + [o])
            else Some((acc + [o], tail[1..]))
  {
    assert SkipWs(tail) == tail;
  }

  lemma {:induction false} ElementsRoundTrip(rs: seq<Record>, acc: seq<Record>, rest: string)
    requires rs != [] && forall i | 0 <= i < |rs| :: DistinctKeys(rs[i])
    ensures ParseElements(Elements(rs) + ("]" + rest), acc) == Some((acc + rs, rest))
    decreases |rs|
  {
    ElementsText(rs, rest);
    MoveFirst(acc, rs);
    var o := StringifyRecord(rs[0]);
    if |rs| == 1 {
      var tail := "]" + rest;
      RecordRoundTrip(rs[0], tail);
      assert tail[0] == ']' && tail[1..] == rest;
      ElementSteps(o + tail, rs[0], tail, acc);
      assert rs == [rs[0]];
    } else {
      var next := Elements(rs[1..]) + ("]" + rest);
      var tail := "," + next;
      RecordRoundTrip(rs[0], tail);
      assert tail[0] == ',' && tail[1..] == next;
      ElementSteps(o + tail, rs[0], tail, acc);
      assert forall i | 0 <= i < |rs| - 1 :: rs[1..][i] == rs[i + 1];
      ElementsRoundTrip(rs[1..], acc + [rs[0]], rest);
    }
  }

  /** The elements' text starts with a brace. */
  lemma ElementsStart(rs: seq<Record>, rest: string)
    requires rs != [] && DistinctKeys(rs[0])
    ensures var b := Elements(rs) + ("]" + rest); b != [] && b[0] == '{' && SkipWs(b) == b
  {
    var tail := if |rs| == 1 then "]" + rest else "," + (Elements(rs[1..]) + ("]" + rest));
    ElementsText(rs, rest);
    RecordRoundTrip(rs[0], tail);
    var o := StringifyRecord(rs[0]);
    assert o[0] == '{';
    assert (o + tail)[0] == o[0];
  }

  /** How `ParseArray` starts on an array that is not empty. */
  lemma ArraySteps(s: string, body: string)
    requires s != [] && s[0] == '[' && s[1..] == body
    requires body != [] && body[0] == '{' && SkipWs(body) == body
    ensures ParseArray(s) == ParseElements(body, [])
  {
  }

  /**
    `JSON.parse(JSON.stringify(records))` gives the records back, keys in the
    same order, when no record repeats a key.
  */
  lemma RoundTrip(rs: seq<Record>)
    requires forall i | 0 <= i < |rs| :: DistinctKeys(rs[i])
    ensures Parse(Stringify(rs)) == Some(rs)
  {
    var s := Stringify(rs);
    if rs == [] {
      assert s[0] == '[' && s[1..] == "]";
    } else {
      var b := Elements(rs) + ("]" + "");
      assert s == "[" + b;
      assert s[0] == '[' && s[1..] == b;
      ElementsStart(rs, "");
      ArraySteps(s, b);
      ElementsRoundTrip(rs, [], "");
      assert [] + rs == rs;
    }
  }
}
