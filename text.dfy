/** String operations the view-models use, on `string` = `seq<char>`. */
module Text {
  import opened Wrappers

  // ---------------------------------------------------------------------------
  // Case folding and substring search
  // ---------------------------------------------------------------------------

  /** ASCII lower-case fold; stands for the locale-aware folding of Kotlin's
      `contains(ignoreCase = true)` and Swift's `localizedCaseInsensitiveContains`. */
  function Lower(c: char): char {
    if 'A' <= c <= 'Z' then (c as int + 32) as char else c
  }

  function LowerAll(s: string): (r: string)
    ensures |r| == |s| && forall i :: 0 <= i < |s| ==> r[i] == Lower(s[i])
  {
    seq(|s|, i requires 0 <= i < |s| => Lower(s[i]))
  }

  predicate StartsWith(s: string, prefix: string) {
    |prefix| <= |s| && s[..|prefix|] == prefix
  }

  /** `sub` occurs in `s` starting at index `i`. */
  predicate OccursAt(s: string, sub: string, i: int) {
    0 <= i && i + |sub| <= |s| && s[i..i + |sub|] == sub
  }

  /** `s.contains(sub)`, searching from the left. */
  predicate Contains(s: string, sub: string)
    decreases |s|
  {
    StartsWith(s, sub) || (|s| > 0 && Contains(s[1..], sub))
  }

  /** The search agrees with the plain definition: some occurrence exists. */
  lemma {:induction false} ContainsIff(s: string, sub: string)
    ensures Contains(s, sub) <==> exists i :: OccursAt(s, sub, i)
    decreases |s|
  {
    if |s| > 0 {
      ContainsIff(s[1..], sub);
      if Contains(s, sub) {
        if StartsWith(s, sub) {
          assert OccursAt(s, sub, 0);
        } else {
          var i :| OccursAt(s[1..], sub, i);
          assert s[1..][i..i + |sub|] == s[i + 1..i + 1 + |sub|];
          assert OccursAt(s, sub, i + 1);
        }
      }
      if exists i :: OccursAt(s, sub, i) {
        var i :| OccursAt(s, sub, i);
        if i == 0 {
          assert s[..|sub|] == s[0..|sub|];
        } else {
          assert s[1..][i - 1..i - 1 + |sub|] == s[i..i + |sub|];
          assert OccursAt(s[1..], sub, i - 1);
        }
      }
    } else {
      if sub == [] {
        assert OccursAt(s, sub, 0);
      }
      if exists i :: OccursAt(s, sub, i) {
        var i :| OccursAt(s, sub, i);
        assert i == 0 && |sub| == 0;
      }
    }
  }

  lemma {:induction false} ContainsShort(s: string, sub: string)
    requires |s| < |sub|
    ensures !Contains(s, sub)
    decreases |s|
  {
    if |s| > 0 {
      ContainsShort(s[1..], sub);
    }
  }

  /** A string without a comma does not contain ", ". */
  lemma NoCommaNoSeparator(s: string)
    requires forall i :: 0 <= i < |s| ==> s[i] != ','
    ensures !Contains(s, ", ")
  {
    ContainsIff(s, ", ");
    forall i ensures !OccursAt(s, ", ", i) {
      if 0 <= i && i + 2 <= |s| {
        assert s[i..i + 2][0] == s[i] != ',';
      }
    }
  }

  /** Prepending a character that cannot start `sub` does not create an occurrence. */
  lemma ContainsCons(c: char, x: string, sub: string)
    requires |sub| > 0 && sub[0] != c
    ensures Contains([c] + x, sub) <==> Contains(x, sub)
  {
    assert ([c] + x)[1..] == x;
  }

  /** Case-insensitive containment. */
  predicate ContainsIgnoreCase(s: string, sub: string) {
    Contains(LowerAll(s), LowerAll(sub))
  }

  // ---------------------------------------------------------------------------
  // Blank strings
  // ---------------------------------------------------------------------------

  /** Whitespace as Kotlin's `isWhitespace` sees it, restricted to ASCII and the
      four information separators U+001C..U+001F. */
  predicate IsWhitespace(c: char) {
    c == ' ' || (9 <= c as int <= 13) || (28 <= c as int <= 31)
  }

  /** Kotlin's `isBlank()`: empty or whitespace only. */
  predicate IsBlank(s: string) {
    forall i :: 0 <= i < |s| ==> IsWhitespace(s[i])
  }

  // ---------------------------------------------------------------------------
  // Lexicographic order (Kotlin's String.compareTo)
  // ---------------------------------------------------------------------------

  predicate LexLe(a: string, b: string)
    decreases |a|
  {
    if a == [] then true
    else if b == [] then false
    else if a[0] != b[0] then a[0] < b[0]
    else LexLe(a[1..], b[1..])
  }

  /** Comparing two strings with equal-length heads: the heads decide unless they are equal. */
  lemma {:induction false} LexLeConcat(p: string, x: string, q: string, y: string)
    requires |p| == |q|
    ensures LexLe(p + x, q + y) <==> (if p == q then LexLe(x, y) else LexLe(p, q))
    decreases |p|
  {
    if p == [] {
      assert p + x == x && q + y == y;
    } else {
      assert (p + x)[0] == p[0] && (q + y)[0] == q[0];
      if p[0] == q[0] {
        assert (p + x)[1..] == p[1..] + x && (q + y)[1..] == q[1..] + y;
        LexLeConcat(p[1..], x, q[1..], y);
        assert p == q <==> p[1..] == q[1..] by {
          if p[1..] == q[1..] { assert p == [p[0]] + p[1..] && q == [q[0]] + q[1..]; }
        }
      }
    }
  }

  // ---------------------------------------------------------------------------
  // Joining and splitting on a separator
  // ---------------------------------------------------------------------------

  /** `joinToString(sep)` / `joined(separator:)`. */
  function Join(parts: seq<string>, sep: string): string
    decreases |parts|
  {
    if |parts| == 0 then ""
    else if |parts| == 1 then parts[0]
    else parts[0] + sep + Join(parts[1..], sep)
  }

  /** `split(sep)` / `components(separatedBy:)`: the pieces between left-to-right,
      non-overlapping occurrences of `sep`; empty pieces are kept, so "" gives [""]. */
  function Split(s: string, sep: string): (r: seq<string>)
    requires |sep| > 0
    ensures |r| > 0
    decreases |s|
  {
    if |s| < |sep| then [s]
    else if s[..|sep|] == sep then [""] + Split(s[|sep|..], sep)
    else
      var rest := Split(s[1..], sep);
      [[s[0]] + rest[0]] + rest[1..]
  }

  lemma JoinCons(c: char, r: seq<string>, sep: string)
    requires |r| > 0
    ensures Join([[c] + r[0]] + r[1..], sep) == [c] + Join(r, sep)
  {
    var t := [[c] + r[0]] + r[1..];
    assert t[0] == [c] + r[0] && t[1..] == r[1..];
    if |r| > 1 {
      assert Join(t, sep) == ([c] + r[0]) + sep + Join(r[1..], sep);
    }
  }

  /** Splitting and joining back on the same separator gives the original string. */
  lemma {:induction false} JoinSplit(s: string, sep: string)
    requires |sep| > 0
    ensures Join(Split(s, sep), sep) == s
    decreases |s|
  {
    if |s| < |sep| {
    } else if s[..|sep|] == sep {
      var rest := Split(s[|sep|..], sep);
      assert Split(s, sep) == [""] + rest;
      JoinSplit(s[|sep|..], sep);
      JoinEmptyCons(rest, sep);
      assert s == s[..|sep|] + s[|sep|..];
    } else {
      var rest := Split(s[1..], sep);
      assert Split(s, sep) == [[s[0]] + rest[0]] + rest[1..];
      JoinSplit(s[1..], sep);
      JoinCons(s[0], rest, sep);
      assert s == [s[0]] + s[1..];
    }
  }

  lemma JoinEmptyCons(r: seq<string>, sep: string)
    requires |r| > 0
    ensures Join([""] + r, sep) == sep + Join(r, sep)
  {
    var t := [""] + r;
    assert t[0] == "" && t[1..] == r;
  }

  lemma JoinHeadIsPrefix(parts: seq<string>, sep: string)
    requires |parts| > 0
    ensures StartsWith(Join(parts, sep), parts[0])
  {
    if |parts| > 1 {
      assert Join(parts, sep) == parts[0] + (sep + Join(parts[1..], sep));
    }
  }

  /** No piece of a split contains the separator. */
  lemma {:induction false} SplitPiecesFree(s: string, sep: string)
    requires |sep| > 0
    ensures forall k :: 0 <= k < |Split(s, sep)| ==> !Contains(Split(s, sep)[k], sep)
    decreases |s|
  {
    var r := Split(s, sep);
    if |s| < |sep| {
      ContainsShort(s, sep);
    } else if s[..|sep|] == sep {
      SplitPiecesFree(s[|sep|..], sep);
      var rest := Split(s[|sep|..], sep);
      assert r == [""] + rest;
      forall k | 0 <= k < |r| ensures !Contains(r[k], sep) {
        if k == 0 { ContainsShort("", sep); } else { assert r[k] == rest[k - 1]; }
      }
    } else {
      SplitPiecesFree(s[1..], sep);
      var rest := Split(s[1..], sep);
      assert r == [[s[0]] + rest[0]] + rest[1..];
      forall k | 0 <= k < |r| ensures !Contains(r[k], sep) {
        if k == 0 {
          var head := [s[0]] + rest[0];
          assert head[1..] == rest[0];
          JoinSplit(s[1..], sep);
          JoinHeadIsPrefix(rest, sep);
          assert !StartsWith(head, sep);
        } else {
          assert r[k] == rest[k];
        }
      }
    }
  }

  /** Splitting `p + ", " + t` on ", " cuts exactly after `p` when `p` holds no ", ". */
  lemma {:induction false} SplitAfterPiece(p: string, t: string)
    requires !Contains(p, ", ")
    ensures Split(p + ", " + t, ", ") == [p] + Split(t, ", ")
    decreases |p|
  {
    var s := p + ", " + t;
    if p == [] {
      assert s == ", " + t && s[..2] == ", " && s[2..] == t;
    } else {
      assert s[..2] != ", " by {
        if |p| == 1 {
          assert s[1] == ',';
        } else {
          assert s[..2] == p[..2];
          assert !StartsWith(p, ", ");
        }
      }
      assert !Contains(p[1..], ", ");
      assert s[1..] == p[1..] + ", " + t;
      SplitAfterPiece(p[1..], t);
      assert [s[0]] + p[1..] == p;
    }
  }

  lemma {:induction false} SplitNoSeparator(p: string)
    requires !Contains(p, ", ")
    ensures Split(p, ", ") == [p]
    decreases |p|
  {
    if |p| >= 2 {
      assert !StartsWith(p, ", ");
      SplitNoSeparator(p[1..]);
      assert [p[0]] + p[1..] == p;
    }
  }

  /** Joining a non-empty list of names on ", " and splitting again recovers the list,
      provided no name itself contains ", ". */
  lemma {:induction false} SplitJoinNames(names: seq<string>)
    requires |names| > 0
    requires forall k :: 0 <= k < |names| ==> !Contains(names[k], ", ")
    ensures Split(Join(names, ", "), ", ") == names
    decreases |names|
  {
    if |names| == 1 {
      SplitNoSeparator(names[0]);
    } else {
      SplitJoinNames(names[1..]);
      SplitAfterPiece(names[0], Join(names[1..], ", "));
      assert [names[0]] + names[1..] == names;
    }
  }

  // ---------------------------------------------------------------------------
  // Replacing every occurrence
  // ---------------------------------------------------------------------------

  /** Kotlin's `replace(from, to)` and Swift's `replacingOccurrences(of:with:)`:
      left-to-right, non-overlapping. */
  function ReplaceAll(s: string, from: string, to: string): string
    requires |from| > 0
    decreases |s|
  {
    if |s| < |from| then s
    else if s[..|from|] == from then to + ReplaceAll(s[|from|..], from, to)
    else [s[0]] + ReplaceAll(s[1..], from, to)
  }

  /** With nothing to replace the string is returned as it is. */
  lemma {:induction false} ReplaceAllAbsent(s: string, from: string, to: string)
    requires |from| > 0 && !Contains(s, from)
    ensures ReplaceAll(s, from, to) == s
    decreases |s|
  {
    if |s| >= |from| {
      ReplaceAllAbsent(s[1..], from, to);
      assert [s[0]] + s[1..] == s;
    }
  }

  /** Replacing is cutting at every occurrence and gluing the pieces back with `to`: the
      pieces are those of `Split`, so each piece is kept and each occurrence becomes `to`. */
  lemma {:induction false} ReplaceIsSplitJoin(s: string, from: string, to: string)
    requires |from| > 0
    ensures ReplaceAll(s, from, to) == Join(Split(s, from), to)
    decreases |s|
  {
    if |s| < |from| {
    } else if s[..|from|] == from {
      var rest := Split(s[|from|..], from);
      assert Split(s, from) == [""] + rest;
      ReplaceIsSplitJoin(s[|from|..], from, to);
      JoinEmptyCons(rest, to);
    } else {
      var rest := Split(s[1..], from);
      assert Split(s, from) == [[s[0]] + rest[0]] + rest[1..];
      ReplaceIsSplitJoin(s[1..], from, to);
      JoinCons(s[0], rest, to);
    }
  }

  /** The first "http:" after a stretch without one becomes "https:", the stretch is kept, and
      the rewrite goes on after it. With `ReplaceAllAbsent` this fixes the rewrite of every
      string, since "http:" cannot overlap itself. */
  lemma {:induction false} RewriteAfterPiece(a: string, b: string)
    requires !Contains(a, "http:")
    ensures ReplaceAll(a + "http:" + b, "http:", "https:") == a + "https:" + ReplaceAll(b, "http:", "https:")
    decreases |a|
  {
    var s := a + "http:" + b;
    if a == [] {
      assert s == "http:" + b && s[..5] == "http:" && s[5..] == b;
    } else {
      assert s[..5] != "http:" by {
        if |a| >= 5 {
          assert s[..5] == a[..5];
          assert !StartsWith(a, "http:");
        } else {
          assert s[|a|] == 'h';
          assert "http:"[|a|] != 'h';
        }
      }
      assert !Contains(a[1..], "http:");
      assert s[1..] == a[1..] + "http:" + b;
      RewriteAfterPiece(a[1..], b);
      assert [a[0]] + a[1..] == a;
    }
  }

  /** Rewriting "http:" to "https:" keeps the first four characters and never shortens. */
  lemma {:induction false} RewriteKeepsHead(t: string)
    ensures |t| <= |ReplaceAll(t, "http:", "https:")|
    ensures forall k :: 0 <= k < 4 && k < |t| ==> ReplaceAll(t, "http:", "https:")[k] == t[k]
    decreases |t|
  {
    if |t| >= 5 {
      if t[..5] == "http:" {
        RewriteKeepsHead(t[5..]);
      } else {
        RewriteKeepsHead(t[1..]);
      }
    }
  }

  /** After the rewrite no "http:" remains anywhere in the string. */
  lemma {:induction false} RewriteRemovesHttp(s: string)
    ensures !Contains(ReplaceAll(s, "http:", "https:"), "http:")
    decreases |s|
  {
    var r := ReplaceAll(s, "http:", "https:");
    if |s| < 5 {
      ContainsShort(s, "http:");
    } else if s[..5] == "http:" {
      var x := ReplaceAll(s[5..], "http:", "https:");
      RewriteRemovesHttp(s[5..]);
      assert r == "https:" + x;
      assert r[1..] == ['t'] + (['t'] + (['p'] + (['s'] + ([':'] + x))));
      ContainsCons(':', x, "http:");
      ContainsCons('s', [':'] + x, "http:");
      ContainsCons('p', ['s'] + ([':'] + x), "http:");
      ContainsCons('t', ['p'] + (['s'] + ([':'] + x)), "http:");
      ContainsCons('t', ['t'] + (['p'] + (['s'] + ([':'] + x))), "http:");
      assert !StartsWith(r, "http:") by { assert r[4] == 's'; }
    } else {
      var t := s[1..];
      var x := ReplaceAll(t, "http:", "https:");
      RewriteRemovesHttp(t);
      RewriteKeepsHead(t);
      assert r == [s[0]] + x && r[1..] == x;
      assert !StartsWith(r, "http:");
    }
  }

  // ---------------------------------------------------------------------------
  // Decimal numbers
  // ---------------------------------------------------------------------------

  predicate IsDigit(c: char) {
    '0' <= c <= '9'
  }

  predicate AllDigits(s: string) {
    forall i :: 0 <= i < |s| ==> IsDigit(s[i])
  }

  function DigitValue(c: char): nat
    requires IsDigit(c)
  {
    c as int - '0' as int
  }

  function DigitChar(d: nat): char
    requires d < 10
  {
    ('0' as int + d) as char
  }

  /** The value of a string of decimal digits, most significant first. */
  function DigitsValue(s: string): nat
    requires AllDigits(s)
    decreases |s|
  {
    if s == [] then 0 else 10 * DigitsValue(s[..|s| - 1]) + DigitValue(s[|s| - 1])
  }

  /** On digit strings of one length, string order is numeric order and equality is equal value.
      This is what makes `YYYY-MM-DD` strings sort in date order. */
  lemma {:induction false} DigitsOrder(a: string, b: string)
    requires |a| == |b| && AllDigits(a) && AllDigits(b)
    ensures LexLe(a, b) <==> DigitsValue(a) <= DigitsValue(b)
    ensures a == b <==> DigitsValue(a) == DigitsValue(b)
    decreases |a|
  {
    if |a| > 0 {
      var n := |a| - 1;
      var a', b' := a[..n], b[..n];
      DigitsOrder(a', b');
      assert a == a' + [a[n]] && b == b' + [b[n]];
      LexLeConcat(a', [a[n]], b', [b[n]]);
      assert LexLe([a[n]], [b[n]]) <==> a[n] <= b[n] by {
        assert [a[n]][1..] == [] && [b[n]][1..] == [];
      }
    }
  }

  /** `toString()` of a natural number. */
  function NatToString(n: nat): string
    decreases n
  {
    if n < 10 then [DigitChar(n)] else NatToString(n / 10) + [DigitChar(n % 10)]
  }

  lemma {:induction false} NatToStringValue(n: nat)
    ensures |NatToString(n)| > 0 && AllDigits(NatToString(n))
    ensures DigitsValue(NatToString(n)) == n
    decreases n
  {
    var s := NatToString(n);
    if n >= 10 {
      NatToStringValue(n / 10);
      assert s[..|s| - 1] == NatToString(n / 10);
    }
  }

  /** `toString()` / `String(_)` of an integer: a '-' sign for negatives. */
  function IntToString(i: int): string {
    if i < 0 then "-" + NatToString(-i) else NatToString(i)
  }

  /** Kotlin's `toIntOrNull()` (range [-2^31, 2^31)) and Swift's `Int64(_:)` (range [-2^63, 2^63)):
      an optional '+' or '-' followed by at least one decimal digit, within the range. */
  function ParseInt(s: string, lo: int, hi: int): (r: Option<int>)
    ensures r.Some? ==> lo <= r.value <= hi
  {
    var signed := |s| > 0 && (s[0] == '-' || s[0] == '+');
    var body := if signed then s[1..] else s;
    if |body| == 0 || !AllDigits(body) then None
    else
      var v: int := if signed && s[0] == '-' then -(DigitsValue(body) as int) else DigitsValue(body);
      if lo <= v <= hi then Some(v) else None
  }

  /** Parsing what `IntToString` prints recovers the number. */
  lemma {:induction false} ParseIntToString(i: int, lo: int, hi: int)
    requires lo <= i <= hi
    ensures ParseInt(IntToString(i), lo, hi) == Some(i)
  {
    var s := IntToString(i);
    if i < 0 {
      NatToStringValue(-i);
      assert s[1..] == NatToString(-i);
    } else {
      NatToStringValue(i);
      assert IsDigit(s[0]);
    }
  }

  /** Different integers print differently. */
  lemma IntToStringInjective(i: int, j: int)
    requires IntToString(i) == IntToString(j)
    ensures i == j
  {
    var lo, hi := if i < j then i else j, if i < j then j else i;
    ParseIntToString(i, lo, hi);
    ParseIntToString(j, lo, hi);
  }
}
