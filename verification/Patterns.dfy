/** What the deployment's patterns and path questions answer on ASCII names and texts. */
module Patterns {
  import opened Prelude
  import opened Base58

  // ---------------------------------------------------------------------------
  // Texts
  // ---------------------------------------------------------------------------

  predicate Ascii(s: string) {
    forall i :: 0 <= i < |s| ==> s[i] as int < 128
  }

  function Encode(s: string): Bytes
    requires Ascii(s)
  {
    seq(|s|, i requires 0 <= i < |s| => s[i] as int)
  }

  /** Decoding, as far as the bytes are ASCII. */
  function Decode(b: Bytes): string {
    seq(|b|, i requires 0 <= i < |b| => b[i] as char)
  }

  lemma DecodeUndoesEncode(s: string)
    requires Ascii(s)
    ensures Decode(Encode(s)) == s
  {
  }

  function LowerChar(c: char): char {
    if 'A' <= c <= 'Z' then (c as int + 32) as char else c
  }

  function Lower(s: string): string {
    seq(|s|, i requires 0 <= i < |s| => LowerChar(s[i]))
  }

  predicate IsSpace(c: char) {
    c as int in {9, 10, 11, 12, 13, 28, 29, 30, 31, 32}
  }

  function TrimLeft(s: string): string {
    if s != "" && IsSpace(s[0]) then TrimLeft(s[1..]) else s
  }

  function TrimRight(s: string): string {
    if s != "" && IsSpace(s[|s| - 1]) then TrimRight(s[..|s| - 1]) else s
  }

  /** `s.strip().lower()` */
  function Normal(s: string): string {
    Lower(TrimRight(TrimLeft(s)))
  }

  predicate IsBreak(c: char) {
    c as int in {10, 11, 12, 13, 28, 29, 30}
  }

  /** How far it is to the first line break, or to the end. */
  function LineLength(s: string): (n: nat)
    ensures n <= |s|
  {
    if s == "" || IsBreak(s[0]) then 0 else 1 + LineLength(s[1..])
  }

  /** `s.splitlines()` */
  function Lines(s: string): seq<string> {
    if s == "" then [] else
      var n := LineLength(s);
      if n == |s| then [s] else [s[..n]] + Lines(s[n + if "\r\n" <= s[n..] then 2 else 1..])
  }

  lemma {:induction false} LineLengthOf(line: string, rest: string)
    requires forall i :: 0 <= i < |line| ==> !IsBreak(line[i])
    requires rest != "" && IsBreak(rest[0])
    ensures LineLength(line + rest) == |line|
  {
    hide IsBreak;
    if line != "" {
      LineLengthOf(line[1..], rest);
      assert (line + rest)[1..] == line[1..] + rest;
    }
  }

  lemma OneLine(line: string)
    requires line != "" && forall i :: 0 <= i < |line| ==> !IsBreak(line[i])
    ensures Lines(line + "\n") == [line]
  {
    hide LineLength, IsBreak;
    assert IsBreak("\n"[0]) by { BreakAtNewline(); }
    LineLengthOf(line, "\n");
    assert (line + "\n")[|line|..] == "\n" && (line + "\n")[..|line|] == line;
  }

  lemma BreakAtNewline()
    ensures IsBreak('\n')
  {
  }

  // ---------------------------------------------------------------------------
  // Words, addresses and prohibitions
  // ---------------------------------------------------------------------------

  predicate IsWord(c: char) {
    'a' <= c <= 'z' || 'A' <= c <= 'Z' || '0' <= c <= '9' || c == '_'
  }

  /** `\b` between `s[i - 1]` and `s[i]`. */
  predicate Boundary(s: string, i: nat)
    requires i <= |s|
  {
    (i > 0 && IsWord(s[i - 1])) != (i < |s| && IsWord(s[i]))
  }

  /** `[1-9A-HJ-NP-Za-km-z]{32,44}`, all of it. */
  predicate IsAddress(s: string) {
    32 <= |s| <= 44 && Valid(s)
  }

  predicate IsToken(s: string, i: nat, j: nat)
    requires i <= j <= |s|
  {
    Boundary(s, i) && Boundary(s, j) && IsAddress(s[i..j])
  }

  /** Everything `\b[1-9A-HJ-NP-Za-km-z]{32,44}\b` finds: base58 is made of word characters, so no two overlap. */
  function TokensOf(s: string): set<string> {
    set i: nat, j: nat | i <= j <= |s| && IsToken(s, i, j) :: s[i..j]
  }

  lemma TokenInside(before: string, v: string, after: string)
    requires IsAddress(v)
    requires before == "" || !IsWord(before[|before| - 1])
    requires after == "" || !IsWord(after[0])
    ensures v in TokensOf(before + v + after)
  {
    assert IsWord(v[0]) && IsWord(v[|v| - 1]) by { WordCharacters(v[0]); WordCharacters(v[|v| - 1]); }
    hide Valid, IsWord, InAlphabet;
    var s, i, j := before + v + after, |before|, |before| + |v|;
    assert s[i..j] == v && s[i] == v[0] && s[j - 1] == v[|v| - 1];
    assert i > 0 ==> s[i - 1] == before[|before| - 1];
    assert j < |s| ==> s[j] == after[0];
    assert IsToken(s, i, j);
  }

  lemma WordCharacters(c: char)
    ensures InAlphabet(c) ==> IsWord(c)
  {
  }

  /** The marker words of a prohibition, in lower case. */
  predicate Marker(m: string) {
    || m in {"never", "not", "no longer", "dont", "don't", "do not", "must not", "cannot", "cant", "can't", "avoid",
             "wrong", "stale", "incorrect", "instead of", "rather than", "no longer accurate", "used to"}
    || exists stem :: stem in {"forbid", "prohibit", "refus", "reject"} && stem <= m
                      && forall k :: |stem| <= k < |m| ==> IsWord(m[k])
  }

  predicate MarkerAt(s: string, i: nat, j: nat)
    requires i <= j <= |s|
  {
    Boundary(s, i) && Boundary(s, j) && Marker(Lower(s[i..j]))
  }

  /** Whether the prohibition pattern matches somewhere in the line. */
  predicate Prohibits(line: string) {
    exists i: nat, j: nat :: i <= j <= |line| && MarkerAt(line, i, j)
  }

  lemma NeverProhibits(rest: string)
    ensures Prohibits("never " + rest)
  {
    hide Marker;
    var s := "never " + rest;
    assert s[0..5] == "never" && Lower("never") == "never";
    assert Marker("never") by { NeverIsMarker(); }
    assert MarkerAt(s, 0, 5);
  }

  lemma NeverIsMarker()
    ensures Marker("never")
  {
  }

  // ---------------------------------------------------------------------------
  // Pins
  // ---------------------------------------------------------------------------

  /** The longest prefix over the base58 alphabet. */
  function AddressRun(s: string): (r: string)
    ensures |r| <= |s|
  {
    if s != "" && InAlphabet(s[0]) then [s[0]] + AddressRun(s[1..]) else ""
  }

  /** `([1-9A-HJ-NP-Za-km-z]{32,44})"` */
  function Quoted(s: string): Option<string> {
    var v := AddressRun(s);
    if 32 <= |v| <= 44 && "\"" <= s[|v|..] then Some(v) else None
  }

  /** `\s*"` and the address. */
  function AfterEquals(s: string): Option<string> {
    var b := TrimLeft(s);
    if "\"" <= b then Quoted(b[1..]) else None
  }

  /** `\s*=` and what follows it. */
  function AfterName(s: string): Option<string> {
    var a := TrimLeft(s);
    if "=" <= a then AfterEquals(a[1..]) else None
  }

  /** `NAME\s*=\s*"([1-9A-HJ-NP-Za-km-z]{32,44})"` at the start of `t`. */
  function PinAt(name: string, t: string): Option<string> {
    if name <= t then AfterName(t[|name|..]) else None
  }

  /** The first match at the start of a line, "" if there is none; `starts` is whether `t` starts a line. */
  function FirstPin(name: string, t: string, starts: bool): string {
    if starts && PinAt(name, t).Some? then PinAt(name, t).value
    else if t == "" then ""
    else FirstPin(name, t[1..], t[0] == '\n')
  }

  function PinIn(name: string, t: string): string {
    FirstPin(name, t, true)
  }

  /** The line that pins `v`. */
  function PinLine(name: string, v: string): string {
    name + " = \"" + v + "\""
  }

  lemma {:induction false} RunOf(v: string, rest: string)
    requires Valid(v) && rest != "" && !InAlphabet(rest[0])
    ensures AddressRun(v + rest) == v
  {
    hide InAlphabet;
    if v != "" {
      assert (v + rest)[1..] == v[1..] + rest && InAlphabet((v + rest)[0]);
      RunOf(v[1..], rest);
    }
  }

  lemma DropPrefix(p: string, s: string)
    ensures p <= p + s && (p + s)[|p|..] == s
  {
  }

  lemma PinLineParts(name: string, v: string, rest: string)
    ensures PinLine(name, v) + "\n" + rest == name + (" " + ("=" + (" " + ("\"" + (v + ("\"" + ("\n" + rest)))))))
  {
  }

  lemma QuotedMatches(v: string, rest: string)
    requires IsAddress(v)
    ensures Quoted(v + ("\"" + rest)) == Some(v)
  {
    hide Valid, AddressRun;
    RunOf(v, "\"" + rest);
    DropPrefix(v, "\"" + rest);
  }

  lemma EqualsMatches(v: string, rest: string)
    requires IsAddress(v)
    ensures AfterEquals(" " + ("\"" + (v + ("\"" + rest)))) == Some(v)
  {
    hide IsAddress, Quoted, TrimLeft;
    QuotedMatches(v, rest);
    DropPrefix("\"", v + ("\"" + rest));
    Spaced("\"" + (v + ("\"" + rest)));
  }

  lemma PinMatches(name: string, v: string, rest: string)
    requires IsAddress(v)
    ensures PinAt(name, PinLine(name, v) + "\n" + rest) == Some(v)
  {
    hide IsAddress, AfterEquals, TrimLeft, PinLine;
    PinLineParts(name, v, rest);
    var b := " " + ("\"" + (v + ("\"" + ("\n" + rest))));
    EqualsMatches(v, "\n" + rest);
    DropPrefix(name, " " + ("=" + b));
    DropPrefix("=", b);
    Spaced("=" + b);
  }

  lemma Spaced(s: string)
    requires s != "" && !IsSpace(s[0])
    ensures TrimLeft(" " + s) == s
  {
    assert (" " + s)[1..] == s;
    assert TrimLeft(s) == s;
  }

  /** A line that does not match is passed over. */
  lemma {:induction false} SkipLine(name: string, line: string, rest: string, starts: bool)
    requires '\n' !in line && (starts ==> PinAt(name, line + "\n" + rest).None?)
    ensures FirstPin(name, line + "\n" + rest, starts) == FirstPin(name, rest, true)
    decreases |line|
  {
    hide PinAt;
    var t := line + "\n" + rest;
    if line == "" {
      assert t[0] == '\n' && t[1..] == rest;
    } else {
      assert t[1..] == line[1..] + "\n" + rest && t[0] == line[0];
      SkipLine(name, line[1..], rest, false);
    }
  }

  // ---------------------------------------------------------------------------
  // Paths
  // ---------------------------------------------------------------------------

  /** The last position of `c`, -1 if there is none. */
  function LastIndex(s: string, c: char): (i: int)
    ensures -1 <= i < |s| && (i >= 0 ==> s[i] == c) && forall k :: i < k < |s| ==> s[k] != c
  {
    if s == "" then -1 else if s[|s| - 1] == c then |s| - 1 else LastIndex(s[..|s| - 1], c)
  }

  lemma LastIndexOf(before: string, c: char, after: string)
    requires c !in after
    ensures LastIndex(before + [c] + after, c) == |before|
  {
    hide LastIndex;
    var s := before + [c] + after;
    assert s[|before|] == c;
  }

  function NameOf(p: string): string {
    p[LastIndex(p, '/') + 1..]
  }

  /** The extension with its dot; neither a leading nor a final dot starts one. */
  function Suffix(p: string): string {
    var n := NameOf(p);
    var i := LastIndex(n, '.');
    if 0 < i < |n| - 1 then n[i..] else ""
  }

  predicate IsTest(p: string) {
    "test_" <= NameOf(p)
  }

  function Relative(f: string, prefix: string): string {
    if prefix + "/" <= f then f[|prefix| + 1..] else "."
  }

  predicate IsUnder(prefix: string, f: string) {
    f == prefix || prefix + "/" <= f
  }

  /** `git ls-files` with one literal path. */
  function ListedUnder(prefix: string, files: seq<string>): seq<string> {
    if files == [] then [] else
      var n := |files| - 1;
      ListedUnder(prefix, files[..n]) + if IsUnder(prefix, files[n]) then [files[n]] else []
  }

  lemma {:induction false} AllListed(prefix: string, files: seq<string>)
    requires forall f :: f in files ==> IsUnder(prefix, f)
    ensures ListedUnder(prefix, files) == files
  {
    hide IsUnder;
    if files != [] {
      var n := |files| - 1;
      assert files == files[..n] + [files[n]];
      AllListed(prefix, files[..n]);
    }
  }

  lemma NameParts(dir: string, stem: string, ext: string)
    requires '/' !in stem && '/' !in ext && '.' !in ext && stem != "" && ext != ""
    ensures var p := dir + "/" + (stem + "." + ext);
            NameOf(p) == stem + "." + ext && Suffix(p) == "." + ext
  {
    LastIndexOf(dir, '/', stem + "." + ext);
    var p := dir + "/" + (stem + "." + ext);
    assert p == dir + ['/'] + (stem + "." + ext) && p[|dir| + 1..] == stem + "." + ext;
    LastIndexOf(stem, '.', ext);
    assert stem + "." + ext == stem + ['.'] + ext;
    assert (stem + "." + ext)[|stem|..] == "." + ext;
  }
}
