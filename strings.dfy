/** The Python string operations the backend relies on: `str.lower`, `str.replace`
    with an empty replacement, the `[^a-zA-Z0-9]` substitution, `str.split`,
    `str.strip`, `str.join` and `str.splitlines`. */
module Strings {

  /** `str.lower()` on one character; only ASCII letters are mapped. */
  function LowerChar(c: char): char {
    if 'A' <= c <= 'Z' then (c as int + 32) as char else c
  }

  /** `str.lower()`. */
  function Lower(s: string): string {
    seq(|s|, i requires 0 <= i < |s| => LowerChar(s[i]))
  }

  /** Equal up to ASCII letter case. */
  predicate EqualIgnoringCase(a: string, b: string) {
    |a| == |b| && forall i :: 0 <= i < |a| ==> LowerChar(a[i]) == LowerChar(b[i])
  }

  predicate IsAsciiAlnum(c: char) {
    'a' <= c <= 'z' || 'A' <= c <= 'Z' || '0' <= c <= '9'
  }

  predicate IsLowerAlnum(c: char) {
    'a' <= c <= 'z' || '0' <= c <= '9'
  }

  /** `t` occurs in `s` starting at index `i`. */
  predicate OccursAt(s: string, t: string, i: int) {
    0 <= i && i + |t| <= |s| && s[i..i + |t|] == t
  }

  /** Text appended to another occurs right after it. */
  lemma OccursAtEnd(a: string, t: string)
    ensures OccursAt(a + t, t, |a|)
  {
    assert (a + t)[|a|..|a| + |t|] == t;
  }

  /** An occurrence survives appending more text. */
  lemma OccursExtend(s: string, t: string, i: int, y: string)
    requires OccursAt(s, t, i)
    ensures OccursAt(s + y, t, i)
  {
    assert (s + y)[i..i + |t|] == s[i..i + |t|];
  }

  ghost predicate Occurs(s: string, t: string) {
    exists i :: OccursAt(s, t, i)
  }

  /** `re.sub(r'[^a-zA-Z0-9]', '', s)`: keep the ASCII letters and digits, in order. */
  function KeepAlnum(s: string): (r: string)
    ensures forall i :: 0 <= i < |r| ==> IsAsciiAlnum(r[i])
  {
    if s == [] then []
    else (if IsAsciiAlnum(s[0]) then [s[0]] else []) + KeepAlnum(s[1..])
  }

  /** The substitution only deletes: every kept character comes from `s`. */
  lemma {:induction false} KeepAlnumSubset(s: string)
    ensures forall c :: c in KeepAlnum(s) ==> c in s
  {
    if s != [] {
      KeepAlnumSubset(s[1..]);
    }
  }

  /** Text made only of ASCII letters and digits passes unchanged. */
  lemma {:induction false} KeepAlnumOfAlnum(s: string)
    requires forall i :: 0 <= i < |s| ==> IsAsciiAlnum(s[i])
    ensures KeepAlnum(s) == s
  {
    if s != [] {
      KeepAlnumOfAlnum(s[1..]);
      assert [s[0]] + s[1..] == s;
    }
  }

  /** Text with no ASCII letter or digit is deleted entirely. */
  lemma {:induction false} KeepAlnumOfNonAlnum(s: string)
    requires forall i :: 0 <= i < |s| ==> !IsAsciiAlnum(s[i])
    ensures KeepAlnum(s) == []
  {
    if s != [] {
      KeepAlnumOfNonAlnum(s[1..]);
    }
  }

  /** `s.replace(w, "")`: scanning from the left, delete every non-overlapping
      occurrence of `w`; the text around a deletion is not rescanned as one. */
  function Remove(s: string, w: string): (r: string)
    requires w != []
    ensures |r| <= |s|
    decreases |s|
  {
    if |s| < |w| then s
    else if s[..|w|] == w then Remove(s[|w|..], w)
    else [s[0]] + Remove(s[1..], w)
  }

  /** `replace` with an empty replacement only deletes: every character left
      comes from `s`. */
  lemma {:induction false} RemoveSubset(s: string, w: string)
    requires w != []
    ensures forall c :: c in Remove(s, w) ==> c in s
    decreases |s|
  {
    if |s| >= |w| {
      if s[..|w|] == w {
        RemoveSubset(s[|w|..], w);
      } else {
        RemoveSubset(s[1..], w);
      }
    }
  }

  /** Where `w` does not occur, `replace` leaves the text alone. */
  lemma {:induction false} RemoveAbsent(s: string, w: string)
    requires w != [] && !Occurs(s, w)
    ensures Remove(s, w) == s
    decreases |s|
  {
    if |s| >= |w| {
      assert !OccursAt(s, w, 0);
      var t := s[1..];
      forall i | OccursAt(t, w, i) ensures OccursAt(s, w, i + 1) {
        assert s[i + 1..i + 1 + |w|] == t[i..i + |w|];
      }
      RemoveAbsent(t, w);
    }
  }

  /** If some character of `w` is missing from `s`, `replace` leaves `s` alone. */
  lemma RemoveMissingChar(s: string, w: string, c: char)
    requires w != [] && c in w && c !in s
    ensures Remove(s, w) == s
  {
    RemoveAbsent(s, w);
  }

  /** A prefix that does not hold the first character of `w` passes through
      unchanged, whatever follows it. */
  lemma {:induction false} RemoveSkipPrefix(u: string, x: string, w: string)
    requires w != [] && w[0] !in u
    ensures Remove(u + x, w) == u + Remove(x, w)
    decreases |u|
  {
    if u == [] {
      assert u + x == x;
    } else {
      var s := u + x;
      if |s| < |w| {
        RemoveShort(x, w);
      } else {
        assert u[0] != w[0];
        assert s[..|w|][0] == u[0];
        assert s[1..] == u[1..] + x;
        assert Remove(s, w) == [u[0]] + Remove(u[1..] + x, w);
        RemoveSkipPrefix(u[1..], x, w);
        assert [u[0]] + u[1..] == u;
      }
    }
  }

  lemma RemoveShort(x: string, w: string)
    requires w != [] && |x| < |w|
    ensures Remove(x, w) == x
  {
  }

  /** An occurrence at the front is deleted whatever follows it: the deletion
      is of a substring, not of a whole word. */
  lemma RemoveLeading(w: string, x: string)
    requires w != []
    ensures Remove(w + x, w) == Remove(x, w)
  {
    assert (w + x)[..|w|] == w;
    assert (w + x)[|w|..] == x;
  }

  /** One character that does not start an occurrence of `w` is kept. */
  lemma RemoveKeepChar(c: char, x: string, w: string)
    requires w != [] && (|x| + 1 < |w| || ([c] + x)[..|w|] != w)
    ensures Remove([c] + x, w) == [c] + Remove(x, w)
  {
    if |x| + 1 < |w| {
      RemoveShort(x, w);
    } else {
      assert ([c] + x)[1..] == x;
    }
  }

  lemma {:induction false} KeepAlnumConcat(a: string, b: string)
    ensures KeepAlnum(a + b) == KeepAlnum(a) + KeepAlnum(b)
  {
    if a == [] {
      assert a + b == b;
    } else {
      assert (a + b)[0] == a[0];
      assert (a + b)[1..] == a[1..] + b;
      var h := if IsAsciiAlnum(a[0]) then [a[0]] else [];
      assert KeepAlnum(a + b) == h + KeepAlnum(a[1..] + b);
      KeepAlnumConcat(a[1..], b);
    }
  }

  /** `str.isspace()` on one character, as `str.strip()` uses it. */
  predicate IsSpace(c: char) {
    var n := c as int;
    (9 <= n <= 13) || (28 <= n <= 32) || n == 0x85 || n == 0xA0 || n == 0x1680
    || (0x2000 <= n <= 0x200A) || n == 0x2028 || n == 0x2029 || n == 0x202F
    || n == 0x205F || n == 0x3000
  }

  /** Neither starts nor ends with whitespace. */
  predicate Stripped(s: string) {
    s == [] || (!IsSpace(s[0]) && !IsSpace(s[|s| - 1]))
  }

  function TrimLeft(s: string): (r: string)
    ensures |r| <= |s| && r == s[|s| - |r|..]
    ensures forall i :: 0 <= i < |s| - |r| ==> IsSpace(s[i])
    ensures r == [] || !IsSpace(r[0])
  {
    if s != [] && IsSpace(s[0]) then TrimLeft(s[1..]) else s
  }

  function TrimRight(s: string): (r: string)
    ensures |r| <= |s| && r == s[..|r|]
    ensures forall i :: |r| <= i < |s| ==> IsSpace(s[i])
    ensures r == [] || !IsSpace(r[|r| - 1])
  {
    if s != [] && IsSpace(s[|s| - 1]) then TrimRight(s[..|s| - 1]) else s
  }

  /** `str.strip()`: the text between the leading and the trailing whitespace. */
  function Strip(s: string): (r: string)
    ensures Stripped(r)
    ensures exists i :: OccursAt(s, r, i)
  {
    var l := TrimLeft(s);
    var r := TrimRight(l);
    assert OccursAt(s, r, |s| - |l|);
    r
  }

  lemma StripStripped(s: string)
    requires Stripped(s)
    ensures Strip(s) == s
  {
  }

  /** `sep.join(xs)`. */
  function Join(xs: seq<string>, sep: string): string {
    if |xs| == 0 then ""
    else if |xs| == 1 then xs[0]
    else xs[0] + sep + Join(xs[1..], sep)
  }

  /** `s.split(sep)` for a one-character separator: the pieces between the
      separators, empty ones included; never an empty list. */
  function Split(s: string, sep: char): (r: seq<string>)
    ensures |r| >= 1
    ensures forall i :: 0 <= i < |r| ==> sep !in r[i]
  {
    if s == [] then [""]
    else
      var rest := Split(s[1..], sep);
      if s[0] == sep then [""] + rest else [[s[0]] + rest[0]] + rest[1..]
  }

  /** Splitting and joining back with the same separator gives the text again. */
  lemma {:induction false} JoinSplit(s: string, sep: char)
    ensures Join(Split(s, sep), [sep]) == s
  {
    if s != [] {
      var rest := Split(s[1..], sep);
      JoinSplit(s[1..], sep);
      if s[0] == sep {
        assert Split(s, sep) == [""] + rest;
        assert (([""] + rest)[1..]) == rest;
      } else {
        var r := Split(s, sep);
        assert r == [[s[0]] + rest[0]] + rest[1..];
        if |rest| > 1 {
          assert r[1..] == rest[1..];
          assert Join(rest, [sep]) == rest[0] + [sep] + Join(rest[1..], [sep]);
        }
      }
    }
  }

  /** Joining pieces that hold no separator and splitting again gives the
      pieces back; the list must be non-empty because `"".split(sep)` is `[""]`. */
  lemma {:induction false} SplitJoin(xs: seq<string>, sep: char)
    requires |xs| >= 1
    requires forall i :: 0 <= i < |xs| ==> sep !in xs[i]
    ensures Split(Join(xs, [sep]), sep) == xs
    decreases |xs|
  {
    if |xs| == 1 {
      SplitNoSeparator(xs[0], sep);
    } else {
      SplitJoin(xs[1..], sep);
      SplitAfterPiece(xs[0], Join(xs[1..], [sep]), sep);
      assert Join(xs, [sep]) == xs[0] + [sep] + Join(xs[1..], [sep]);
      assert [xs[0]] + xs[1..] == xs;
    }
  }

  lemma {:induction false} SplitNoSeparator(x: string, sep: char)
    requires sep !in x
    ensures Split(x, sep) == [x]
  {
    if x != [] {
      SplitNoSeparator(x[1..], sep);
      assert [x[0]] + x[1..] == x;
    }
  }

  lemma {:induction false} SplitAfterPiece(x: string, rest: string, sep: char)
    requires sep !in x
    ensures Split(x + [sep] + rest, sep) == [x] + Split(rest, sep)
  {
    if x == [] {
      assert x + [sep] + rest == [sep] + rest;
      assert ([sep] + rest)[1..] == rest;
    } else {
      SplitAfterPiece(x[1..], rest, sep);
      assert (x + [sep] + rest)[1..] == x[1..] + [sep] + rest;
      assert [x[0]] + x[1..] == x;
    }
  }

  /** The first piece of `s.split(sep)` is the text before the first separator. */
  lemma {:induction false} SplitFirstPiece(s: string, sep: char)
    ensures var p := Split(s, sep)[0];
      |p| <= |s| && s[..|p|] == p && sep !in p && (|p| < |s| ==> s[|p|] == sep)
  {
    if s != [] {
      SplitFirstPiece(s[1..], sep);
    }
  }

  /** Stripping a single leading space off text that is already stripped. */
  lemma StripSpaceBefore(x: string)
    requires Stripped(x)
    ensures Strip(" " + x) == x
  {
    var s := " " + x;
    assert IsSpace(s[0]);
    assert s[1..] == x;
    assert TrimLeft(x) == x;
    assert TrimRight(x) == x;
    assert TrimLeft(s) == TrimLeft(x);
  }

  /** Splitting text joined with ", " on ',' gives the first piece as it was
      and every later piece behind one space. */
  lemma {:induction false} SplitJoinedWithSpace(xs: seq<string>)
    requires |xs| >= 1
    requires forall i :: 0 <= i < |xs| ==> ',' !in xs[i]
    ensures var r := Split(Join(xs, ", "), ',');
      |r| == |xs| && r[0] == xs[0] && forall i :: 1 <= i < |xs| ==> r[i] == " " + xs[i]
    decreases |xs|
  {
    if |xs| == 1 {
      SplitNoSeparator(xs[0], ',');
    } else {
      var tail := Join(xs[1..], ", ");
      SplitJoinedWithSpace(xs[1..]);
      var rt := Split(tail, ',');
      assert Join(xs, ", ") == xs[0] + [','] + ([' '] + tail);
      SplitAfterPiece(xs[0], [' '] + tail, ',');
      assert ([' '] + tail)[1..] == tail;
      var rs := Split([' '] + tail, ',');
      assert rs == [[' '] + rt[0]] + rt[1..];
      var r := Split(Join(xs, ", "), ',');
      assert r == [xs[0]] + rs;
      forall i | 1 <= i < |xs| ensures r[i] == " " + xs[i] {
        if i == 1 {
          assert r[1] == [' '] + rt[0];
        } else {
          assert r[i] == rt[i - 1];
        }
      }
    }
  }

  /** The characters `str.splitlines` breaks at: line feed, vertical tab, form
      feed, carriage return, the file/group/record separators, NEL and the
      Unicode line and paragraph separators. */
  predicate IsLineBoundary(c: char) {
    var n := c as int;
    (10 <= n <= 13) || (28 <= n <= 30) || n == 0x85 || n == 0x2028 || n == 0x2029
  }

  /** Where the line break at `i` ends: "\r\n" is one break. */
  function BreakEnd(s: string, i: nat): (r: nat)
    requires i < |s| && IsLineBoundary(s[i])
    ensures i < r <= |s|
  {
    if s[i] == '\r' && i + 1 < |s| && s[i + 1] == '\n' then i + 2 else i + 1
  }

  /** The index of the first line boundary, or |s| when there is none. */
  function FirstBreak(s: string): (r: nat)
    ensures r <= |s|
    ensures r < |s| ==> IsLineBoundary(s[r])
    ensures forall k :: 0 <= k < r ==> !IsLineBoundary(s[k])
  {
    if s == [] || IsLineBoundary(s[0]) then 0 else 1 + FirstBreak(s[1..])
  }

  /** `str.splitlines()`: the lines of `s` without their breaks; no empty
      line after a final break, and none at all for the empty string. */
  function SplitLines(s: string): seq<string>
    decreases |s|
  {
    if s == [] then []
    else
      var e := FirstBreak(s);
      if e == |s| then [s] else [s[..e]] + SplitLines(s[BreakEnd(s, e)..])
  }

  /** Some line break is followed by more text. */
  predicate BreakBeforeText(s: string) {
    exists i :: 0 <= i < |s| && IsLineBoundary(s[i]) && BreakEnd(s, i) < |s|
  }

  /** `s.splitlines()` has more than one line exactly when some line break is
      followed by more text; a single break at the very end gives one line. */
  lemma MultipleLinesCharacterized(s: string)
    ensures |SplitLines(s)| > 1 <==> BreakBeforeText(s)
  {
    if s != [] {
      var e := FirstBreak(s);
      if e < |s| {
        var n := BreakEnd(s, e);
        if n < |s| {
          assert |SplitLines(s[n..])| >= 1;
        } else {
          forall i | 0 <= i < |s| && IsLineBoundary(s[i]) ensures BreakEnd(s, i) >= |s| {
            assert e <= i;
          }
        }
      }
    }
  }
}
