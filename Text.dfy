/**
 * The JavaScript string operations the three scripts rely on, written over
 * `seq<char>`: `trim`, `split(/\r?\n/)`, `join`, `includes`, `startsWith`,
 * `split('?')[0]`, `String(n)` and `padStart`.
 */
module Text {

  /** The characters `String.prototype.trim` removes: ECMAScript WhiteSpace and LineTerminator. */
  predicate IsTrimSpace(c: char) {
    || c == '\t' || c == '\n' || c == '\U{000B}' || c == '\U{000C}' || c == '\r' || c == ' '
    || c == '\U{00A0}' || c == '\U{1680}' || ('\U{2000}' <= c <= '\U{200A}')
    || c == '\U{2028}' || c == '\U{2029}' || c == '\U{202F}' || c == '\U{205F}'
    || c == '\U{3000}' || c == '\U{FEFF}'
  }

  /** Number of trim-space characters at the front of `s`. */
  function LeadingSpaces(s: string): (n: nat)
    ensures n <= |s|
    ensures forall k :: 0 <= k < n ==> IsTrimSpace(s[k])
    ensures n == |s| || !IsTrimSpace(s[n])
  {
    if |s| > 0 && IsTrimSpace(s[0]) then 1 + LeadingSpaces(s[1..]) else 0
  }

  /** Number of trim-space characters at the back of `s`. */
  function TrailingSpaces(s: string): (n: nat)
    ensures n <= |s|
    ensures forall k :: |s| - n <= k < |s| ==> IsTrimSpace(s[k])
    ensures n == |s| || !IsTrimSpace(s[|s| - 1 - n])
  {
    if |s| > 0 && IsTrimSpace(s[|s| - 1]) then 1 + TrailingSpaces(s[..|s| - 1]) else 0
  }

  /**
   * `s.trim()`: the slice of `s` left after removing trim-space characters at
   * both ends. That slice starts right after the leading spaces, and it holds
   * every character of `s` that is not a trim space.
   */
  function Trim(s: string): (r: string)
    ensures r == [] || (!IsTrimSpace(r[0]) && !IsTrimSpace(r[|r| - 1]))
    ensures LeadingSpaces(s) + |r| <= |s|
    ensures r == Window(s, LeadingSpaces(s), |r|)
    ensures SpacesOutside(s, LeadingSpaces(s), LeadingSpaces(s) + |r|)
  {
    var front := LeadingSpaces(s);
    var rest := s[front..];
    var kept := |rest| - TrailingSpaces(rest);
    assert rest[..kept] == s[front..front + kept];
    WindowSlice(s, front, kept);
    TrailingSpacesAfter(s, front);
    rest[..kept]
  }

  /**
   * The `len` characters of `s` from position `lo` on, one at a time (the
   * slice `s[lo..lo + len]`, as `WindowSlice` shows).
   */
  ghost function Window(s: string, lo: nat, len: nat): string
    requires lo + len <= |s|
    decreases len
  {
    if len == 0 then [] else Window(s, lo, len - 1) + [s[lo + len - 1]]
  }

  lemma {:induction false} WindowSlice(s: string, lo: nat, len: nat)
    requires lo + len <= |s|
    ensures Window(s, lo, len) == s[lo..lo + len]
    decreases len
  {
    if len > 0 {
      WindowSlice(s, lo, len - 1);
      assert s[lo..lo + len] == s[lo..lo + len - 1] + [s[lo + len - 1]];
    }
  }

  /** Every character of `s` outside `s[lo..hi]` is a trim space. */
  ghost predicate SpacesOutside(s: string, lo: int, hi: int) {
    forall k :: 0 <= k < |s| && !IsTrimSpace(s[k]) ==> lo <= k < hi
  }

  /** The trailing spaces of a suffix of `s` are trailing spaces of `s` itself. */
  lemma TrailingSpacesAfter(s: string, front: nat)
    requires front <= |s|
    ensures forall k :: front + |s[front..]| - TrailingSpaces(s[front..]) <= k < |s| ==> IsTrimSpace(s[k])
  {
    var rest := s[front..];
    forall k | front + |rest| - TrailingSpaces(rest) <= k < |s| ensures IsTrimSpace(s[k]) {
      assert rest[k - front] == s[k];
    }
  }

  /** `Trim` leaves a string with no space at either end unchanged. */
  lemma TrimOfTrimmed(s: string)
    requires s == [] || (!IsTrimSpace(s[0]) && !IsTrimSpace(s[|s| - 1]))
    ensures Trim(s) == s
  {
  }

  /** A string that is its own trim has no space at either end. */
  lemma TrimmedEnds(s: string)
    requires Trim(s) == s
    ensures s == [] || (!IsTrimSpace(s[0]) && !IsTrimSpace(s[|s| - 1]))
  {
    var r := Trim(s);
    assert r == [] || (!IsTrimSpace(r[0]) && !IsTrimSpace(r[|r| - 1]));
  }

  /** `Trim` is idempotent. */
  lemma TrimIdempotent(s: string)
    ensures Trim(Trim(s)) == Trim(s)
  {
    TrimOfTrimmed(Trim(s));
  }

  /** `s.startsWith(p)`. */
  predicate StartsWith(s: string, p: string) {
    |p| <= |s| && s[..|p|] == p
  }

  /** `t` occurs in `s` at position `i`. */
  predicate OccursAt(s: string, t: string, i: int) {
    0 <= i && i + |t| <= |s| && s[i..i + |t|] == t
  }

  /** `s.includes(t)`, by scanning `s` from the left. */
  function Contains(s: string, t: string): (r: bool)
    ensures r <==> exists i :: OccursAt(s, t, i)
  {
    if StartsWith(s, t) then
      assert OccursAt(s, t, 0);
      true
    else if |s| <= |t| then
      assert forall i :: OccursAt(s, t, i) ==> StartsWith(s, t);
      false
    else
      var r := Contains(s[1..], t);
      assert forall i :: OccursAt(s[1..], t, i) ==> OccursAt(s, t, i + 1) by {
        forall i | OccursAt(s[1..], t, i) ensures OccursAt(s, t, i + 1) {
          assert s[1..][i..i + |t|] == s[i + 1..i + 1 + |t|];
        }
      }
      assert forall i :: OccursAt(s, t, i) ==> i >= 1 && OccursAt(s[1..], t, i - 1) by {
        forall i | OccursAt(s, t, i) ensures i >= 1 && OccursAt(s[1..], t, i - 1) {
          assert i != 0;
          assert s[1..][i - 1..i - 1 + |t|] == s[i..i + |t|];
        }
      }
      r
  }

  /** `s.split(c)[0]`: the part of `s` before the first `c`, or all of `s`. */
  function Before(s: string, c: char): (r: string)
    ensures c !in r
    ensures StartsWith(s, r)
    ensures r == s || s[|r|] == c
  {
    if |s| == 0 || s[0] == c then [] else [s[0]] + Before(s[1..], c)
  }

  /** Two strings that agree up to their first `c` have the same part before it. */
  lemma BeforeOfExtension(p: string, c: char, x: string, y: string)
    requires c !in p
    ensures Before(p + [c] + x, c) == Before(p + [c] + y, c) == p
  {
    var rx, ry := Before(p + [c] + x, c), Before(p + [c] + y, c);
    assert (p + [c] + x)[|p|] == c;
    BeforeIsUpToFirst(p + [c] + x, c, |p|);
    BeforeIsUpToFirst(p + [c] + y, c, |p|);
    assert rx == (p + [c] + x)[..|p|];
    assert ry == (p + [c] + y)[..|p|];
  }

  /** `Before` stops exactly at the first `c`. */
  lemma BeforeIsUpToFirst(s: string, c: char, i: nat)
    requires i < |s| && s[i] == c && c !in s[..i]
    ensures Before(s, c) == s[..i]
  {
    var r := Before(s, c);
    assert s[..i][..|r|] == r by {
      assert s[..|r|] == r;
    }
  }

  /**
   * `text.split(/\r?\n/)`: cut `text` at every line feed, dropping one
   * carriage return right before it. The piece after the last line feed
   * keeps a carriage return it ends with, as the regular expression only
   * matches a CR that a LF follows.
   */
  function SplitLines(text: string): (lines: seq<string>)
    ensures |lines| >= 1
    ensures forall k :: 0 <= k < |lines| ==> '\n' !in lines[k]
    decreases |text|
  {
    var line := Before(text, '\n');
    if line == text then [text]
    else
      var piece := if |line| > 0 && line[|line| - 1] == '\r' then line[..|line| - 1] else line;
      assert '\n' !in piece by {
        assert forall ch :: ch in piece ==> ch in line;
      }
      [piece] + SplitLines(text[|line| + 1..])
  }

  /** `lines.join(sep)`. */
  function Join(lines: seq<string>, sep: string): (r: string)
    ensures |lines| == 0 ==> r == []
    ensures |lines| == 1 ==> r == lines[0]
    ensures |lines| >= 1 ==> StartsWith(r, lines[0])
  {
    if |lines| == 0 then []
    else if |lines| == 1 then lines[0]
    else lines[0] + sep + Join(lines[1..], sep)
  }

  /** Lines that hold no LF, and none but the last ends in CR, survive `join('\n')` then `split(/\r?\n/)`. */
  lemma {:induction false} SplitJoin(lines: seq<string>)
    requires |lines| >= 1
    requires forall k :: 0 <= k < |lines| ==> '\n' !in lines[k]
    requires forall k :: 0 <= k < |lines| - 1 ==> lines[k] == [] || lines[k][|lines[k]| - 1] != '\r'
    ensures SplitLines(Join(lines, "\n")) == lines
  {
    if |lines| > 1 {
      var first, rest := lines[0], lines[1..];
      assert lines == [first] + rest;
      assert forall k :: 0 <= k < |rest| ==> rest[k] == lines[k + 1];
      JoinCons(first, rest, "\n");
      SplitAfterFirst(first, Join(rest, "\n"));
      SplitJoin(rest);
    }
  }

  /** A text with no line feed is a single piece, whatever carriage returns it holds. */
  lemma NoLfOnePiece(t: string)
    requires '\n' !in t
    ensures SplitLines(t) == [t]
  {
  }

  /** A line with no LF or final CR, then LF, splits into that line followed by the lines of the rest. */
  lemma SplitAfterFirst(line: string, rest: string)
    requires '\n' !in line
    requires line == [] || line[|line| - 1] != '\r'
    ensures SplitLines(line + "\n" + rest) == [line] + SplitLines(rest)
  {
    var text := line + "\n" + rest;
    assert text[|line|] == '\n';
    assert text[..|line|] == line;
    BeforeIsUpToFirst(text, '\n', |line|);
    assert text[|line| + 1..] == rest;
  }

  /** A text with no CR survives `split(/\r?\n/)` then `join('\n')`. */
  lemma {:induction false} JoinSplit(t: string)
    requires '\r' !in t
    ensures Join(SplitLines(t), "\n") == t
    decreases |t|
  {
    var line := Before(t, '\n');
    if line != t {
      var rest := t[|line| + 1..];
      assert t == line + "\n" + rest by {
        assert t[..|line|] == line;
      }
      assert '\r' !in line && '\r' !in rest by {
        assert forall ch :: ch in line || ch in rest ==> ch in t;
      }
      assert line == [] || line[|line| - 1] in line;
      SplitAfterFirst(line, rest);
      JoinSplit(rest);
      JoinCons(line, SplitLines(rest), "\n");
    }
  }

  /** Joining one more line in front puts it and the separator before the rest. */
  lemma JoinCons(line: string, lines: seq<string>, sep: string)
    requires |lines| >= 1
    ensures Join([line] + lines, sep) == line + sep + Join(lines, sep)
  {
    assert ([line] + lines)[1..] == lines;
  }

  /** A CR right before a LF is dropped with it: `a\r\nb` splits as `a` then the lines of `b`. */
  lemma SplitCrLf(a: string, b: string)
    requires '\n' !in a
    ensures SplitLines(a + "\r\n" + b) == [a] + SplitLines(b)
  {
    var text := a + "\r\n" + b;
    assert text[|a| + 1] == '\n';
    assert text[..|a| + 1] == a + "\r";
    BeforeIsUpToFirst(text, '\n', |a| + 1);
    assert (a + "\r")[..|a|] == a;
    assert text[|a| + 2..] == b;
  }

  /** Equal strings with a common head and tail agree in between. */
  lemma ConcatCancel(head: string, a: string, b: string, tail: string)
    requires head + a + tail == head + b + tail
    ensures a == b
  {
    var x, y := head + a + tail, head + b + tail;
    assert |a| == |b|;
    assert a == x[|head|..|head| + |a|];
    assert b == y[|head|..|head| + |b|];
  }

  /** The decimal digit characters. */
  predicate IsDigit(c: char) {
    '0' <= c <= '9'
  }

  /** The value of a string of decimal digits, most significant first. */
  function DigitsValue(s: string): nat
    requires forall k :: 0 <= k < |s| ==> IsDigit(s[k])
  {
    if |s| == 0 then 0
    else
      var d := s[|s| - 1] as int - '0' as int;
      assert IsDigit(s[|s| - 1]);
      DigitsValue(s[..|s| - 1]) * 10 + d
  }

  /** `String(n)` for a natural number: its decimal numeral, with no leading zero. */
  function NatToString(n: nat): (r: string)
    ensures |r| >= 1
    ensures forall k :: 0 <= k < |r| ==> IsDigit(r[k])
    ensures DigitsValue(r) == n
    ensures |r| > 1 ==> r[0] != '0'
    ensures n < 10 ==> |r| == 1
  {
    var last := ['0' + (n % 10) as char];
    if n < 10 then last
    else
      var r := NatToString(n / 10) + last;
      assert r[..|r| - 1] == NatToString(n / 10);
      r
  }

  /** The decimal numeral of `n` has three digits or fewer exactly when `n < 1000`. */
  lemma {:induction false} NatToStringLength(n: nat)
    ensures |NatToString(n)| <= 3 <==> n < 1000
    ensures 1 <= n < 1000 ==> |NatToString(n)| == if n < 10 then 1 else if n < 100 then 2 else 3
  {
    if n >= 10 {
      NatToStringLength(n / 10);
    }
  }

  /** `s.padStart(len, fill)`, for a one-character fill string. */
  function PadStart(s: string, len: nat, fill: char): (r: string)
    ensures |s| >= len ==> r == s
    ensures |s| < len ==> |r| == len
    ensures r[|r| - |s|..] == s
    ensures forall k :: 0 <= k < |r| - |s| ==> r[k] == fill
  {
    if |s| >= len then s else seq(len - |s|, _ => fill) + s
  }

  /** Leading zeros do not change the value of a numeral. */
  lemma {:induction false} ZerosValue(z: string, s: string)
    requires forall k :: 0 <= k < |z| ==> z[k] == '0'
    requires forall k :: 0 <= k < |s| ==> IsDigit(s[k])
    ensures DigitsValue(z + s) == DigitsValue(s)
  {
    if |s| == 0 {
      ZerosOnly(z);
      assert z + s == z;
    } else {
      var zs := z + s;
      assert zs[..|zs| - 1] == z + s[..|s| - 1];
      ZerosValue(z, s[..|s| - 1]);
    }
  }

  /** A run of zeros has value zero. */
  lemma {:induction false} ZerosOnly(z: string)
    requires forall k :: 0 <= k < |z| ==> z[k] == '0'
    ensures DigitsValue(z) == 0
  {
    if |z| > 0 {
      ZerosOnly(z[..|z| - 1]);
    }
  }

  /** A zero-padded decimal numeral still denotes its number, so padding keeps numerals distinct. */
  lemma PaddedNumeralValue(n: nat, len: nat)
    ensures forall k :: 0 <= k < |PadStart(NatToString(n), len, '0')| ==> IsDigit(PadStart(NatToString(n), len, '0')[k])
    ensures DigitsValue(PadStart(NatToString(n), len, '0')) == n
  {
    var s := NatToString(n);
    var z := PaddedSplit(s, len, '0');
    ZerosValue(z, s);
  }

  /** A padded string is a run of its fill character followed by the string itself. */
  lemma PaddedSplit(s: string, len: nat, fill: char) returns (z: string)
    ensures PadStart(s, len, fill) == z + s
    ensures forall k :: 0 <= k < |z| ==> z[k] == fill
  {
    var r := PadStart(s, len, fill);
    var front := |r| - |s|;
    z := r[..front];
    assert r == z + r[front..];
  }

  /**
   * `lines.map(line => line.trim()).filter(keep)`: the trimmed lines that
   * `keep` accepts, in input order.
   */
  function SelectTrimmed(lines: seq<string>, keep: string -> bool): (urls: seq<string>)
    ensures |urls| <= |lines|
    ensures forall k :: 0 <= k < |urls| ==> keep(urls[k])
  {
    if lines == [] then []
    else
      var last := Trim(lines[|lines| - 1]);
      SelectTrimmed(lines[..|lines| - 1], keep) + (if keep(last) then [last] else [])
  }

  /** One more line is selected, trimmed, exactly when `keep` accepts it. */
  lemma SelectTrimmedSnoc(lines: seq<string>, line: string, keep: string -> bool)
    ensures SelectTrimmed(lines + [line], keep) ==
      SelectTrimmed(lines, keep) + (if keep(Trim(line)) then [Trim(line)] else [])
  {
    assert (lines + [line])[..|lines|] == lines;
  }

  /** Selecting from one more line of the same list. */
  lemma SelectTrimmedPrefix(lines: seq<string>, i: nat, keep: string -> bool)
    requires i < |lines|
    ensures SelectTrimmed(lines[..i + 1], keep) ==
      SelectTrimmed(lines[..i], keep) + (if keep(Trim(lines[i])) then [Trim(lines[i])] else [])
  {
    assert lines[..i + 1] == lines[..i] + [lines[i]];
    SelectTrimmedSnoc(lines[..i], lines[i], keep);
  }

  /** Every selected line is already trimmed: trimming it again changes nothing. */
  lemma {:induction false} SelectTrimmedTrimmed(lines: seq<string>, keep: string -> bool)
    ensures forall k :: 0 <= k < |SelectTrimmed(lines, keep)| ==>
      Trim(SelectTrimmed(lines, keep)[k]) == SelectTrimmed(lines, keep)[k]
  {
    if lines != [] {
      var n := |lines| - 1;
      SelectTrimmedTrimmed(lines[..n], keep);
      TrimIdempotent(lines[n]);
    }
  }

  /** Selecting from two blocks of lines selects from each in turn. */
  lemma {:induction false} SelectTrimmedAppend(a: seq<string>, b: seq<string>, keep: string -> bool)
    ensures SelectTrimmed(a + b, keep) == SelectTrimmed(a, keep) + SelectTrimmed(b, keep)
  {
    if b == [] {
      assert a + b == a;
    } else {
      var n := |b| - 1;
      var init, x := b[..n], b[n];
      assert b == init + [x];
      assert a + b == (a + init) + [x];
      SelectTrimmedAppend(a, init, keep);
      SelectTrimmedSnoc(a + init, x, keep);
      SelectTrimmedSnoc(init, x, keep);
    }
  }

  /** Indenting a line that is its own trim does not change what `trim` returns. */
  lemma TrimIndented(pad: string, u: string)
    requires forall k :: 0 <= k < |pad| ==> IsTrimSpace(pad[k])
    requires Trim(u) == u
    ensures Trim(pad + u) == u
  {
    TrimPadded(pad, u);
  }

  /** Trim spaces before a string with no space at either end are all `trim` removes. */
  lemma TrimPadded(pad: string, u: string)
    requires forall k :: 0 <= k < |pad| ==> IsTrimSpace(pad[k])
    requires u == [] || (!IsTrimSpace(u[0]) && !IsTrimSpace(u[|u| - 1]))
    ensures Trim(pad + u) == u
  {
    var s := pad + u;
    if u == [] {
      assert s == pad;
    } else {
      var r := Trim(s);
      LeadingSpacesPadded(pad, u);
      WindowSlice(s, |pad|, |r|);
      var last := |s| - 1;
      assert s[last] == u[|u| - 1];
      assert SpacesOutside(s, |pad|, |pad| + |r|);
      assert |r| == |u|;
      forall k | 0 <= k < |u| ensures r[k] == u[k] {
        assert s[|pad| + k] == u[k];
      }
    }
  }

  /** Trim spaces before a string that starts with a non-space are exactly its leading spaces. */
  lemma {:induction false} LeadingSpacesPadded(pad: string, u: string)
    requires forall k :: 0 <= k < |pad| ==> IsTrimSpace(pad[k])
    requires u != [] && !IsTrimSpace(u[0])
    ensures LeadingSpaces(pad + u) == |pad|
  {
    if pad != [] {
      assert (pad + u)[1..] == pad[1..] + u;
      assert (pad + u)[0] == pad[0];
      LeadingSpacesPadded(pad[1..], u);
    } else {
      assert pad + u == u;
    }
  }




  /** The positions, in input order, of the lines whose trimmed form `keep` accepts. */
  ghost function SelectedPositions(lines: seq<string>, keep: string -> bool): (ix: seq<nat>)
    ensures forall k :: 0 <= k < |ix| ==> ix[k] < |lines|
  {
    if lines == [] then []
    else
      var n := |lines| - 1;
      SelectedPositions(lines[..n], keep) + (if keep(Trim(lines[n])) then [n] else [])
  }

  /** The selection is the trimmed lines at the selected positions, one entry per position. */
  lemma {:induction false} PositionsSelect(lines: seq<string>, keep: string -> bool)
    ensures var ix := SelectedPositions(lines, keep);
      && |ix| == |SelectTrimmed(lines, keep)|
      && forall k :: 0 <= k < |ix| ==> SelectTrimmed(lines, keep)[k] == Trim(lines[ix[k]])
  {
    if lines != [] {
      var n := |lines| - 1;
      var prev := lines[..n];
      PositionsSelect(prev, keep);
      var init := SelectedPositions(prev, keep);
      var ix := SelectedPositions(lines, keep);
      var sel0 := SelectTrimmed(prev, keep);
      var sel := SelectTrimmed(lines, keep);
      assert sel == sel0 + (if keep(Trim(lines[n])) then [Trim(lines[n])] else []);
      assert ix == init + (if keep(Trim(lines[n])) then [n] else []);
      forall k | 0 <= k < |ix| ensures sel[k] == Trim(lines[ix[k]]) {
        if k < |init| {
          assert ix[k] == init[k] && sel[k] == sel0[k] && prev[init[k]] == lines[init[k]];
        } else {
          assert ix[k] == n;
        }
      }
    }
  }

  /** Each entry is smaller than every later one. */
  predicate Increasing(ix: seq<nat>) {
    forall k, l :: 0 <= k < l < |ix| ==> ix[k] < ix[l]
  }

  /** The selected positions strictly increase, so the selection keeps input order. */
  lemma {:induction false} PositionsIncreasing(lines: seq<string>, keep: string -> bool)
    ensures Increasing(SelectedPositions(lines, keep))
  {
    if lines != [] {
      var n := |lines| - 1;
      var prev := lines[..n];
      var init := SelectedPositions(prev, keep);
      PositionsIncreasing(prev, keep);
      assert |prev| == n;
      IncreasingSnoc(init, n, keep(Trim(lines[n])));
      assert SelectedPositions(lines, keep) == init + (if keep(Trim(lines[n])) then [n] else []);
    }
  }

  /** A position is selected exactly when `keep` accepts its trimmed line. */
  lemma PositionsComplete(lines: seq<string>, keep: string -> bool)
    ensures var ix := SelectedPositions(lines, keep);
      forall i :: 0 <= i < |lines| ==> (keep(Trim(lines[i])) <==> i in ix)
  {
    forall i | 0 <= i < |lines| ensures keep(Trim(lines[i])) <==> i in SelectedPositions(lines, keep) {
      PositionSelected(lines, keep, i);
    }
  }

  lemma {:induction false} PositionSelected(lines: seq<string>, keep: string -> bool, i: nat)
    requires i < |lines|
    ensures keep(Trim(lines[i])) <==> i in SelectedPositions(lines, keep)
  {
    var n := |lines| - 1;
    var prev := lines[..n];
    var init := SelectedPositions(prev, keep);
    var last := keep(Trim(lines[n]));
    assert SelectedPositions(lines, keep) == init + (if last then [n] else []);
    if i < n {
      PositionSelected(prev, keep, i);
      assert prev[i] == lines[i];
      assert i in SelectedPositions(lines, keep) <==> i in init;
    } else {
      assert n !in init by {
        assert |prev| == n;
      }
      assert i in SelectedPositions(lines, keep) <==> last;
    }
  }

  /** Appending a number larger than every entry keeps a sequence strictly increasing. */
  lemma IncreasingSnoc(init: seq<nat>, n: nat, add: bool)
    requires forall k :: 0 <= k < |init| ==> init[k] < n
    requires Increasing(init)
    ensures Increasing(init + (if add then [n] else []))
  {
    var ix := init + (if add then [n] else []);
    forall k, l | 0 <= k < l < |ix| ensures ix[k] < ix[l] {
      assert ix[k] == init[k];
      if l < |init| {
        assert ix[l] == init[l];
      }
    }
  }
}
