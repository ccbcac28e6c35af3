/**
 * The Python string built-ins the service relies on: `strip()`, `strip(chars)`,
 * `lower()`, `split(sep)`, `startswith`/`endswith` and the `in` substring test.
 * Strings are sequences of Unicode scalar values.
 */
module PyStr {

  /** Python's `str.isspace()`: the characters `str.strip()` removes. */
  predicate IsSpace(c: char) {
    var n := c as int;
    (9 <= n <= 13) || (28 <= n <= 32) || n == 0x85 || n == 0xA0 || n == 0x1680
    || (0x2000 <= n <= 0x200A) || n == 0x2028 || n == 0x2029 || n == 0x202F
    || n == 0x205F || n == 0x3000
  }

  /** `s.lstrip(chars)` where `drop` says which characters are in `chars`. */
  function LStrip(s: string, drop: char -> bool): string
    decreases |s|
  {
    if s != [] && drop(s[0]) then LStrip(s[1..], drop) else s
  }

  /** `lstrip` removes the longest prefix of dropped characters and keeps the rest. */
  lemma {:induction false} LStripSpec(s: string, drop: char -> bool)
    ensures var r := LStrip(s, drop);
      |r| <= |s| && r == s[|s| - |r|..]
      && (forall i | 0 <= i < |s| - |r| :: drop(s[i]))
      && (r == [] || !drop(r[0]))
    decreases |s|
  {
    if s != [] && drop(s[0]) {
      LStripSpec(s[1..], drop);
      var r := LStrip(s, drop);
      assert s[1..][|s| - 1 - |r|..] == s[|s| - |r|..];
      forall i | 1 <= i < |s| - |r|
        ensures drop(s[i])
      {
        assert s[i] == s[1..][i - 1];
      }
    }
  }

  /** `s.rstrip(chars)` where `drop` says which characters are in `chars`. */
  function RStrip(s: string, drop: char -> bool): string
    decreases |s|
  {
    if s != [] && drop(s[|s| - 1]) then RStrip(s[..|s| - 1], drop) else s
  }

  /** `rstrip` removes the longest suffix of dropped characters and keeps the rest. */
  lemma {:induction false} RStripSpec(s: string, drop: char -> bool)
    ensures var r := RStrip(s, drop);
      |r| <= |s| && r == s[..|r|]
      && (forall i | |r| <= i < |s| :: drop(s[i]))
      && (r == [] || !drop(r[|r| - 1]))
    decreases |s|
  {
    if s != [] && drop(s[|s| - 1]) {
      var n := |s|;
      RStripSpec(s[..n - 1], drop);
      var r := RStrip(s, drop);
      assert s[..n - 1][..|r|] == s[..|r|];
      forall i | |r| <= i < n - 1
        ensures drop(s[i])
      {
        assert s[i] == s[..n - 1][i];
      }
    }
  }

  /** `s.strip()`: leading and trailing whitespace removed. */
  function Strip(s: string): string {
    RStrip(LStrip(s, IsSpace), IsSpace)
  }

  predicate IsQuote(c: char) {
    c == '\'' || c == '"'
  }

  /** `s.strip("'\"")`: leading and trailing quote characters removed. */
  function StripQuotes(s: string): string {
    RStrip(LStrip(s, IsQuote), IsQuote)
  }

  /** `lower()` on one character, restricted to ASCII letters. */
  function LowerChar(c: char): char {
    if 'A' <= c <= 'Z' then (c as int + 32) as char else c
  }

  /** `s.lower()`, with ASCII case folding. */
  function Lower(s: string): (r: string)
    ensures |r| == |s|
    ensures forall i | 0 <= i < |s| :: r[i] == LowerChar(s[i])
  {
    seq(|s|, i requires 0 <= i < |s| => LowerChar(s[i]))
  }

  /** The substring test `q in s`. */
  predicate Contains(s: string, q: string)
    decreases |s|
  {
    q <= s || (s != [] && Contains(s[1..], q))
  }

  predicate EndsWith(s: string, suffix: string) {
    |suffix| <= |s| && s[|s| - |suffix|..] == suffix
  }

  /** The inverse of `Split`: `sep.join(parts)`. */
  function Join(parts: seq<string>, sep: char): string
    decreases |parts|
  {
    if parts == [] then []
    else if |parts| == 1 then parts[0]
    else parts[0] + [sep] + Join(parts[1..], sep)
  }

  /** `s.split(sep)` for a one-character separator: always at least one piece. */
  function Split(s: string, sep: char): (parts: seq<string>)
    ensures |parts| >= 1
    decreases |s|
  {
    if s == [] then [[]] else Prepend(s[0], sep, Split(s[1..], sep))
  }

  /** Putting character `x` in front of the text that was split into `parts`. */
  function Prepend(x: char, sep: char, parts: seq<string>): (r: seq<string>)
    requires |parts| >= 1
    ensures |r| >= 1
  {
    if x == sep then [[]] + parts else [[x] + parts[0]] + parts[1..]
  }

  /** Putting character `c` at the end of the text that was split into `parts`. */
  function Append(parts: seq<string>, c: char, sep: char): (r: seq<string>)
    requires |parts| >= 1
    ensures |r| >= 1
  {
    if c == sep then parts + [[]] else parts[..|parts| - 1] + [parts[|parts| - 1] + [c]]
  }

  /** No piece of `Split` contains the separator, and joining the pieces gives `s` back. */
  lemma {:induction false} SplitJoin(s: string, sep: char)
    ensures forall i | 0 <= i < |Split(s, sep)| :: sep !in Split(s, sep)[i]
    ensures Join(Split(s, sep), sep) == s
    decreases |s|
  {
    if s != [] {
      SplitJoin(s[1..], sep);
      var rest := Split(s[1..], sep);
      if s[0] == sep {
        assert Join([[]] + rest, sep) == [sep] + Join(rest, sep);
      } else {
        var parts := [[s[0]] + rest[0]] + rest[1..];
        assert Join(parts, sep) == [s[0]] + Join(rest, sep) by {
          if |rest| > 1 {
            assert parts[1..] == rest[1..];
          }
        }
      }
    }
  }

  /** Adding a character at the front and one at the back commute. */
  lemma PrependAppend(x: char, parts: seq<string>, c: char, sep: char)
    requires |parts| >= 1
    ensures Prepend(x, sep, Append(parts, c, sep)) == Append(Prepend(x, sep, parts), c, sep)
  {
    var n := |parts|;
    var q := Append(parts, c, sep);
    var r := Prepend(x, sep, parts);
    if x == sep && c == sep {
      assert [[]] + (parts + [[]]) == ([[]] + parts) + [[]];
    } else if x == sep {
      assert r[..|r| - 1] == [[]] + parts[..n - 1];
    } else if c == sep {
      assert q[1..] == parts[1..] + [[]];
    } else if n == 1 {
      assert q == [parts[0] + [c]];
      assert [x] + (parts[0] + [c]) == ([x] + parts[0]) + [c];
    } else {
      assert q[0] == parts[0];
      assert q[1..] == parts[1..n - 1] + [parts[n - 1] + [c]];
      assert r[..|r| - 1] == [[x] + parts[0]] + parts[1..n - 1];
    }
  }

  /** Appending one character to `s` either starts a new piece or extends the last one. */
  lemma {:induction false} SplitSnoc(s: string, c: char, sep: char)
    ensures Split(s + [c], sep) == Append(Split(s, sep), c, sep)
    decreases |s|
  {
    if s == [] {
      var e: string := [];
      assert s + [c] == [c] && [c][1..] == e;
      assert Split([c], sep) == Prepend(c, sep, [e]);
      assert [c] + e == e + [c] == [c];
      assert [e][..0] + [[c]] == [[c]] + [e][1..];
    } else {
      var u := s + [c];
      assert u[0] == s[0] && u[1..] == s[1..] + [c];
      SplitSnoc(s[1..], c, sep);
      PrependAppend(s[0], Split(s[1..], sep), c, sep);
    }
  }
}
