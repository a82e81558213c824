/**
 The string operations of the Rust standard library that the parsers rely on:
 repeated trimming, splitting and joining, together with the laws that make
 them inverses of one another.
 */
module Text {

  predicate StartsWith(s: string, p: string) {
    |p| <= |s| && s[..|p|] == p
  }

  predicate EndsWith(s: string, p: string) {
    |p| <= |s| && s[|s| - |p|..] == p
  }

  /** `str::trim_end_matches`: strips the suffix as often as it occurs; an empty pattern strips nothing. */
  function TrimEnd(s: string, p: string): (r: string)
    ensures r <= s
    ensures p != "" ==> !EndsWith(r, p)
    decreases |s|
  {
    if p != "" && EndsWith(s, p) then TrimEnd(s[..|s| - |p|], p) else s
  }

  /** `str::trim_start_matches`: strips the prefix as often as it occurs. */
  function TrimStart(s: string, p: string): (r: string)
    ensures |r| <= |s|
    ensures p != "" ==> !StartsWith(r, p)
    decreases |s|
  {
    if p != "" && StartsWith(s, p) then TrimStart(s[|p|..], p) else s
  }

  lemma NothingToTrim(s: string)
    requires s != "" && s[0] != '.'
    ensures TrimStart(s, ".") == s
  {
  }

  function Repeat(p: string, k: nat): string {
    if k == 0 then "" else Repeat(p, k - 1) + p
  }

  /** How many copies of the prefix `TrimStart` removes. */
  function TrimmedCopies(s: string, p: string): (k: nat)
    ensures s == Repeat(p, k) + TrimStart(s, p)
    decreases |s|
  {
    if p != "" && StartsWith(s, p) then
      var k := TrimmedCopies(s[|p|..], p);
      RepeatFront(p, k);
      assert s == p + s[|p|..];
      k + 1
    else 0
  }

  lemma {:induction false} RepeatFront(p: string, k: nat)
    ensures p + Repeat(p, k) == Repeat(p, k + 1)
  {
    if k > 0 {
      RepeatFront(p, k - 1);
      assert p + (Repeat(p, k - 1) + p) == (p + Repeat(p, k - 1)) + p;
    }
  }

  lemma TrimsOne(p: string, rest: string)
    requires p != ""
    ensures TrimStart(p + rest, p) == TrimStart(rest, p)
  {
    assert (p + rest)[..|p|] == p && (p + rest)[|p|..] == rest;
  }

  /** Whatever number of copies stands before a text that does not begin with one is removed. */
  lemma {:induction false} TrimsRepeated(p: string, k: nat, rest: string)
    requires p != "" && !StartsWith(rest, p)
    ensures TrimStart(Repeat(p, k) + rest, p) == rest
  {
    if k == 0 {
      assert Repeat(p, 0) + rest == rest;
    } else {
      RepeatFront(p, k - 1);
      assert Repeat(p, k) + rest == p + (Repeat(p, k - 1) + rest);
      TrimsOne(p, Repeat(p, k - 1) + rest);
      TrimsRepeated(p, k - 1, rest);
    }
  }

  /** How many copies of the suffix `TrimEnd` removes. */
  function Copies(s: string, p: string): (k: nat)
    ensures s == TrimEnd(s, p) + Repeat(p, k)
    decreases |s|
  {
    if p != "" && EndsWith(s, p) then
      var t := s[..|s| - |p|];
      assert s == t + p;
      Copies(t, p) + 1
    else 0
  }

  /** `TrimEnd` removes the largest possible number of copies, and what is left is determined by that. */
  lemma {:induction false} TrimEndIsMaximal(s: string, p: string, r: string, k: nat)
    requires p != "" && s == r + Repeat(p, k)
    ensures k <= Copies(s, p)
    ensures TrimEnd(s, p) == TrimEnd(r, p)
    ensures !EndsWith(r, p) ==> r == TrimEnd(s, p) && k == Copies(s, p)
    decreases k
  {
    if k == 0 {
      assert s == r;
    } else {
      var t := s[..|s| - |p|];
      assert s == (r + Repeat(p, k - 1)) + p;
      assert t == r + Repeat(p, k - 1);
      TrimEndIsMaximal(t, p, r, k - 1);
    }
  }

  predicate Lacks(s: string, c: char) {
    c !in s
  }

  /** `str::split` on one character: always at least one part, none of which holds the separator. */
  function Split(s: string, sep: char): (parts: seq<string>)
    ensures |parts| >= 1
    ensures forall p <- parts :: Lacks(p, sep)
    ensures Join(parts, sep) == s
  {
    if s == "" then [""]
    else
      var rest := Split(s[1..], sep);
      if s[0] == sep then
        [""] + rest
      else
        JoinHead([s[0]] + rest[0], rest, s[0], sep);
        assert Lacks(rest[0], sep) && Lacks([s[0]] + rest[0], sep);
        assert forall p <- rest[1..] :: p in rest;
        [[s[0]] + rest[0]] + rest[1..]
  }

  /** `[&str]::join` with a one-character separator. */
  function Join(parts: seq<string>, sep: char): string {
    if |parts| == 0 then ""
    else if |parts| == 1 then parts[0]
    else parts[0] + [sep] + Join(parts[1..], sep)
  }

  lemma JoinHead(head: string, rest: seq<string>, c: char, sep: char)
    requires |rest| >= 1 && head == [c] + rest[0]
    ensures Join([head] + rest[1..], sep) == [c] + Join(rest, sep)
  {
  }

  /** Splitting undoes joining exactly on separator-free parts. */
  lemma {:induction false} SplitJoin(parts: seq<string>, sep: char)
    requires |parts| >= 1
    ensures Split(Join(parts, sep), sep) == parts <==> forall p <- parts :: Lacks(p, sep)
  {
    if forall p <- parts :: Lacks(p, sep) {
      SplitJoinParts(parts, sep);
    }
  }

  lemma {:induction false} SplitJoinParts(parts: seq<string>, sep: char)
    requires |parts| >= 1 && forall p <- parts :: Lacks(p, sep)
    ensures Split(Join(parts, sep), sep) == parts
    decreases |parts|, |parts[0]|
  {
    var s := Join(parts, sep);
    if parts[0] == "" {
      if |parts| > 1 {
        assert s == [sep] + Join(parts[1..], sep);
        assert s[1..] == Join(parts[1..], sep);
        SplitJoinParts(parts[1..], sep);
      }
    } else {
      var shorter := [parts[0][1..]] + parts[1..];
      assert parts[0] in parts;
      assert forall p <- shorter :: Lacks(p, sep) by {
        assert forall p <- parts[1..] :: p in parts;
      }
      JoinHead(parts[0], shorter, parts[0][0], sep);
      assert parts == [parts[0]] + shorter[1..];
      assert s[1..] == Join(shorter, sep);
      SplitJoinParts(shorter, sep);
    }
  }

  lemma {:induction false} JoinSnoc(parts: seq<string>, last: string, sep: char)
    requires |parts| >= 1
    ensures Join(parts + [last], sep) == Join(parts, sep) + [sep] + last
  {
    if |parts| > 1 {
      assert (parts + [last])[1..] == parts[1..] + [last];
      JoinSnoc(parts[1..], last, sep);
    } else {
      assert (parts + [last])[1..] == [last];
    }
  }

  /** The last label of a text is a part of its own. */
  lemma SplitLast(front: string, last: string, sep: char)
    requires Lacks(last, sep)
    ensures Split(front + [sep] + last, sep) == Split(front, sep) + [last]
  {
    JoinSnoc(Split(front, sep), last, sep);
    SplitJoin(Split(front, sep) + [last], sep);
  }

  /** Every text with a separator is some front, a separator and a separator-free last part. */
  lemma SplitUnlast(s: string, sep: char)
    requires |Split(s, sep)| > 1
    ensures var parts := Split(s, sep);
            s == Join(parts[..|parts| - 1], sep) + [sep] + parts[|parts| - 1]
  {
    var parts := Split(s, sep);
    assert parts == parts[..|parts| - 1] + [parts[|parts| - 1]];
    JoinSnoc(parts[..|parts| - 1], parts[|parts| - 1], sep);
  }

  lemma SplitSingle(s: string, sep: char)
    ensures |Split(s, sep)| == 1 <==> Lacks(s, sep)
    ensures Lacks(s, sep) ==> Split(s, sep) == [s]
  {
  }

  /** The first part is empty exactly for the empty text and for texts that begin with the separator. */
  lemma SplitFirstEmpty(s: string, sep: char)
    ensures Split(s, sep)[0] == "" <==> s == "" || s[0] == sep
  {
  }

  /** `str::rfind` of a character, as the split around its last occurrence. */
  function RFind(s: string, c: char): (i: int)
    ensures -1 <= i < |s|
    ensures i == -1 <==> Lacks(s, c)
    ensures i >= 0 ==> s[i] == c && Lacks(s[i + 1..], c)
  {
    if s == "" then -1
    else if s[|s| - 1] == c then |s| - 1
    else
      var i := RFind(s[..|s| - 1], c);
      assert s == s[..|s| - 1] + [s[|s| - 1]];
      assert i >= 0 ==> s[i + 1..] == s[..|s| - 1][i + 1..] + [s[|s| - 1]];
      i
  }

  lemma {:induction false} RFindIs(s: string, c: char, i: nat)
    requires i < |s| && s[i] == c && Lacks(s[i + 1..], c)
    ensures RFind(s, c) == i
  {
  }

  function LowerChar(c: char): char {
    if 'A' <= c <= 'Z' then c - 'A' + 'a' else c
  }

  /** The capital letters move up by 32, and nothing else moves. */
  lemma LowerCharIsAscii(c: char)
    ensures 65 <= c as int <= 90 ==> LowerChar(c) as int == c as int + 32
    ensures c as int < 65 || c as int > 90 ==> LowerChar(c) == c
  {
  }

  /** `str::to_lowercase` on the ASCII text that `HeaderValue::to_str` admits. */
  function Lower(s: string): (r: string)
    ensures |r| == |s|
    ensures forall i :: 0 <= i < |s| ==> r[i] == LowerChar(s[i])
  {
    if s == "" then "" else [LowerChar(s[0])] + Lower(s[1..])
  }

  /** Lower-casing introduces no character that is not a letter. */
  lemma LowerKeepsLacking(s: string, c: char)
    requires Lacks(s, c) && !('a' <= c <= 'z')
    ensures Lacks(Lower(s), c)
  {
  }

  lemma LowerOfSuffix(s: string, n: nat)
    requires n <= |s|
    ensures Lower(s[n..]) == Lower(s)[n..]
  {
  }

  lemma LowerIsStable(s: string)
    ensures Lower(Lower(s)) == Lower(s)
  {
  }

  /** The pattern occurs at position `j`. */
  predicate At(s: string, p: string, j: int) {
    0 <= j && j + |p| <= |s| && s[j..j + |p|] == p
  }

  /** The start of the first occurrence of a pattern, or -1. */
  function Find(s: string, p: string): (i: int)
    requires p != ""
    ensures i == -1 || At(s, p, i)
    ensures forall j :: At(s, p, j) ==> 0 <= i <= j
  {
    if |s| < |p| then -1
    else if StartsWith(s, p) then 0
    else
      var i := Find(s[1..], p);
      AtShifts(s, p);
      if i == -1 then -1 else i + 1
  }

  lemma AtShifts(s: string, p: string)
    requires s != ""
    ensures forall j :: j > 0 ==> (At(s, p, j) <==> At(s[1..], p, j - 1))
  {
  }

  /** The text between the first and the second occurrence of a pattern: `split(p).nth(1)`. */
  function SecondPart(s: string, p: string): (bool, string)
    requires p != ""
  {
    var i := Find(s, p);
    if i == -1 then (false, "")
    else
      var rest := s[i + |p|..];
      var j := Find(rest, p);
      (true, if j == -1 then rest else rest[..j])
  }

  /** The Unicode property `White_Space`. */
  predicate IsWhitespace(c: char) {
    var u := c as int;
    || 9 <= u <= 13 || u == 0x20 || u == 0x85 || u == 0xA0 || u == 0x1680
    || 0x2000 <= u <= 0x200A || u == 0x2028 || u == 0x2029 || u == 0x202F || u == 0x205F || u == 0x3000
  }

  predicate HasNoSpace(s: string) {
    forall i :: 0 <= i < |s| ==> !IsWhitespace(s[i])
  }

  predicate AllSpace(s: string) {
    forall i :: 0 <= i < |s| ==> IsWhitespace(s[i])
  }

  /** The longest prefix without white space. */
  function Word(s: string): (w: string)
    ensures w <= s && HasNoSpace(w)
    ensures |w| < |s| ==> IsWhitespace(s[|w|])
  {
    if s == "" || IsWhitespace(s[0]) then "" else [s[0]] + Word(s[1..])
  }

  /** `split_whitespace().next()`, the empty word standing for "none". */
  function FirstWord(s: string): (w: string)
    ensures HasNoSpace(w) && |w| <= |s|
    ensures w == "" <==> AllSpace(s)
    ensures HasNoSpace(s) ==> w == s
  {
    if s != "" && IsWhitespace(s[0]) then FirstWord(s[1..]) else Word(s)
  }
}
