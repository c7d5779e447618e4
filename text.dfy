/** String building blocks shared by the JavaScript and Python parts of the
    model: searching, per-character rewriting, joining, trimming by a
    character class, ASCII case folding and decimal rendering. Strings are
    sequences of characters; every definition here is over `seq<char>`. */
module Text {
  import opened Wrappers

  // ---------------------------------------------------------------------------
  // Occurrences and search
  // ---------------------------------------------------------------------------

  /** `pat` occurs in `s` starting at index `i`. */
  predicate OccursAt(s: string, pat: string, i: nat)
  {
    i + |pat| <= |s| && s[i..i + |pat|] == pat
  }

  /** `pat` occurs somewhere in `s` (String.prototype.includes). */
  ghost predicate Contains(s: string, pat: string)
  {
    exists i: nat :: OccursAt(s, pat, i)
  }

  /** The first index at or after `from` where `pat` occurs (String.prototype.indexOf). */
  function IndexOf(s: string, pat: string, from: nat): (r: Option<nat>)
    decreases |s| - from
    ensures r.Some? ==> from <= r.value && OccursAt(s, pat, r.value)
    ensures r.Some? ==> forall j :: from <= j < r.value ==> !OccursAt(s, pat, j)
    ensures r.None? <==> forall j :: from <= j ==> !OccursAt(s, pat, j)
  {
    if from + |pat| > |s| then None
    else if OccursAt(s, pat, from) then Some(from)
    else IndexOf(s, pat, from + 1)
  }

  lemma IndexOfFindsContained(s: string, pat: string)
    ensures IndexOf(s, pat, 0).Some? <==> Contains(s, pat)
  {
    if IndexOf(s, pat, 0).Some? {
      assert OccursAt(s, pat, IndexOf(s, pat, 0).value);
    }
  }

  /** Some index below `n` satisfies `p`: the scan a regular expression's
      `test` performs over the candidate start positions. */
  function SomeBelow(n: nat, p: nat -> bool): (b: bool)
    ensures b <==> exists i :: 0 <= i < n && p(i)
  {
    if n == 0 then false else p(n - 1) || SomeBelow(n - 1, p)
  }

  /** `p` holds of every character of `s`. */
  predicate All(s: string, p: char -> bool)
  {
    forall k :: 0 <= k < |s| ==> p(s[k])
  }

  /** Length of the longest run of characters satisfying `p` that starts at `i`. */
  function RunFrom(s: string, i: nat, p: char -> bool): (n: nat)
    requires i <= |s|
    decreases |s| - i
    ensures i + n <= |s|
    ensures forall k :: i <= k < i + n ==> p(s[k])
    ensures i + n < |s| ==> !p(s[i + n])
  {
    if i == |s| || !p(s[i]) then 0 else 1 + RunFrom(s, i + 1, p)
  }

  /** A run of `n` characters of class `p` followed by a character outside
      it (or the end) is exactly the run RunFrom measures. */
  lemma {:induction false} RunFromExact(s: string, i: nat, p: char -> bool, n: nat)
    requires i + n <= |s|
    requires forall k :: i <= k < i + n ==> p(s[k])
    requires i + n < |s| ==> !p(s[i + n])
    ensures RunFrom(s, i, p) == n
    decreases n
  {
    if n > 0 {
      RunFromExact(s, i + 1, p, n - 1);
    }
  }

  /** Length of the longest run of characters satisfying `p` that ends `s`. */
  function TrailingRun(s: string, p: char -> bool): (n: nat)
    ensures n <= |s|
    ensures forall k :: |s| - n <= k < |s| ==> p(s[k])
    ensures n < |s| ==> !p(s[|s| - n - 1])
  {
    if s == [] || !p(s[|s| - 1]) then 0 else 1 + TrailingRun(s[..|s| - 1], p)
  }

  /** `s` without its leading and trailing characters of class `p`
      (String.prototype.trim and Python's str.strip, each with its own class). */
  function TrimBy(s: string, p: char -> bool): (r: string)
    ensures |r| <= |s|
    ensures r == [] <==> All(s, p)
    ensures r != [] ==> !p(r[0]) && !p(r[|r| - 1])
    ensures r != [] ==> RunFrom(s, 0, p) + |r| <= |s| && s[RunFrom(s, 0, p)..RunFrom(s, 0, p) + |r|] == r
    ensures forall k :: RunFrom(s, 0, p) + |r| <= k < |s| ==> p(s[k])
  {
    var lead := RunFrom(s, 0, p);
    if lead == |s| then
      []
    else
      var trail := TrailingRun(s, p);
      assert !p(s[lead]);
      assert trail < |s| - lead;
      var r := s[lead..|s| - trail];
      assert r[0] == s[lead];
      r
  }

  lemma {:induction false} TrimByIdempotent(s: string, p: char -> bool)
    ensures TrimBy(TrimBy(s, p), p) == TrimBy(s, p)
  {
    var r := TrimBy(s, p);
    if r != [] {
      assert RunFrom(r, 0, p) == 0;
      assert TrailingRun(r, p) == 0;
      assert r[0..|r| - 0] == r;
    }
  }

  // ---------------------------------------------------------------------------
  // Per-character rewriting
  // ---------------------------------------------------------------------------

  /** Replace every character `c` of `s` by `f(c)`, left to right. */
  function MapChars(s: string, f: char -> string): string
  {
    if s == [] then [] else f(s[0]) + MapChars(s[1..], f)
  }

  lemma {:induction false} MapCharsAppend(a: string, b: string, f: char -> string)
    ensures MapChars(a + b, f) == MapChars(a, f) + MapChars(b, f)
  {
    if a != [] {
      assert (a + b)[1..] == a[1..] + b;
      MapCharsAppend(a[1..], b, f);
    } else {
      assert a + b == b;
    }
  }

  lemma {:induction false} MapCharsCompose(s: string, f: char -> string, g: char -> string)
    ensures MapChars(MapChars(s, f), g) == MapChars(s, c => MapChars(f(c), g))
  {
    if s != [] {
      MapCharsAppend(f(s[0]), MapChars(s[1..], f), g);
      MapCharsCompose(s[1..], f, g);
    }
  }

  lemma {:induction false} MapCharsExtensional(s: string, f: char -> string, g: char -> string)
    requires forall c :: f(c) == g(c)
    ensures MapChars(s, f) == MapChars(s, g)
  {
    if s != [] {
      MapCharsExtensional(s[1..], f, g);
    }
  }

  /** A character `x` is in the rewritten string exactly when some input
      character's image contains it. */
  lemma {:induction false} MapCharsMember(s: string, f: char -> string, x: char)
    ensures x in MapChars(s, f) <==> exists i :: 0 <= i < |s| && x in f(s[i])
  {
    if s != [] {
      MapCharsMember(s[1..], f, x);
      if x in MapChars(s[1..], f) {
        var i :| 0 <= i < |s[1..]| && x in f(s[1..][i]);
        assert x in f(s[i + 1]);
      }
      if exists i :: 0 <= i < |s| && x in f(s[i]) {
        var i :| 0 <= i < |s| && x in f(s[i]);
        if i > 0 {
          assert x in f(s[1..][i - 1]);
        }
      }
    }
  }

  /** The image of a character under `f` is the character itself. */
  predicate FixedBy(f: char -> string, c: char)
  {
    f(c) == [c]
  }

  lemma {:induction false} MapCharsIdentity(s: string, f: char -> string)
    requires forall k :: 0 <= k < |s| ==> FixedBy(f, s[k])
    ensures MapChars(s, f) == s
  {
    if s != [] {
      assert FixedBy(f, s[0]);
      forall k | 0 <= k < |s[1..]| ensures FixedBy(f, s[1..][k]) {
        assert s[1..][k] == s[k + 1];
      }
      MapCharsIdentity(s[1..], f);
    }
  }

  /** Number of characters of `s` satisfying `p`. */
  function CountWhere(s: string, p: char -> bool): nat
  {
    if s == [] then 0 else (if p(s[0]) then 1 else 0) + CountWhere(s[1..], p)
  }

  /** When `f` maps the characters of class `p` to strings of length `n + 1`
      and every other character to itself, the output grows by `n` per such character. */
  lemma {:induction false} MapCharsLength(s: string, f: char -> string, p: char -> bool, n: nat)
    requires forall c :: p(c) ==> |f(c)| == n + 1
    requires forall c :: !p(c) ==> |f(c)| == 1
    ensures |MapChars(s, f)| == |s| + n * CountWhere(s, p)
  {
    if s != [] {
      MapCharsLength(s[1..], f, p, n);
    }
  }

  lemma {:induction false} CountWhereZero(s: string, p: char -> bool)
    ensures CountWhere(s, p) == 0 <==> forall k :: 0 <= k < |s| ==> !p(s[k])
  {
    if s != [] {
      CountWhereZero(s[1..], p);
      assert forall k :: 1 <= k < |s| ==> s[k] == s[1..][k - 1];
    }
  }

  /** `.replace(/c/g, rep)` for a single character class and a replacement with no `$`. */
  function ReplaceChar(s: string, c: char, rep: string): string
  {
    MapChars(s, x => if x == c then rep else [x])
  }

  /** Replacing a character by itself changes nothing. */
  lemma ReplaceCharSelf(s: string, c: char)
    ensures ReplaceChar(s, c, [c]) == s
  {
    MapCharsIdentity(s, x => if x == c then [c] else [x]);
  }

  // ---------------------------------------------------------------------------
  // Joining
  // ---------------------------------------------------------------------------

  /** Array.prototype.join over strings: the parts separated by `sep`. */
  function Join(parts: seq<string>, sep: string): string
  {
    if |parts| == 0 then ""
    else if |parts| == 1 then parts[0]
    else parts[0] + sep + Join(parts[1..], sep)
  }

  lemma {:induction false} JoinConcat(a: seq<string>, b: seq<string>, sep: string)
    requires |a| > 0 && |b| > 0
    ensures Join(a + b, sep) == Join(a, sep) + sep + Join(b, sep)
  {
    if |a| == 1 {
      assert (a + b)[1..] == b;
    } else {
      assert (a + b)[1..] == a[1..] + b;
      JoinConcat(a[1..], b, sep);
    }
  }

  lemma JoinSingle(x: string, sep: string)
    ensures Join([x], sep) == x
  {
  }

  lemma JoinPair(x: string, y: string, sep: string)
    ensures Join([x, y], sep) == x + sep + y
  {
    assert [x, y][1..] == [y];
  }

  lemma JoinTriple(x: string, y: string, z: string, sep: string)
    ensures Join([x, y, z], sep) == x + sep + y + sep + z
  {
    assert [x, y, z][1..] == [y, z];
    JoinPair(y, z, sep);
  }

  // ---------------------------------------------------------------------------
  // ASCII case folding (what a JavaScript `/i` regular expression without the
  // `u` flag applies to the ASCII letters of its pattern)
  // ---------------------------------------------------------------------------

  function LowerAscii(c: char): char
  {
    if 'A' <= c <= 'Z' then (c as int + 32) as char else c
  }

  function UpperAscii(c: char): char
  {
    if 'a' <= c <= 'z' then (c as int - 32) as char else c
  }

  /** `pat` occurs in `s` at index `i`, ASCII letters compared without case. */
  predicate OccursAtIgnoringCase(s: string, pat: string, i: nat)
  {
    i + |pat| <= |s| && forall k :: 0 <= k < |pat| ==> LowerAscii(s[i + k]) == LowerAscii(pat[k])
  }

  /** The first index at or after `from` where `pat` occurs ignoring ASCII case. */
  function FindIgnoringCase(s: string, pat: string, from: nat): (r: Option<nat>)
    decreases |s| - from
    ensures r.Some? ==> from <= r.value && OccursAtIgnoringCase(s, pat, r.value)
    ensures r.Some? ==> forall j :: from <= j < r.value ==> !OccursAtIgnoringCase(s, pat, j)
    ensures r.None? <==> forall j :: from <= j ==> !OccursAtIgnoringCase(s, pat, j)
  {
    if from + |pat| > |s| then None
    else if OccursAtIgnoringCase(s, pat, from) then Some(from)
    else FindIgnoringCase(s, pat, from + 1)
  }

  lemma OccursAtImpliesIgnoringCase(s: string, pat: string, i: nat)
    requires OccursAt(s, pat, i)
    ensures OccursAtIgnoringCase(s, pat, i)
  {
    forall k | 0 <= k < |pat| ensures s[i + k] == pat[k] {
      assert s[i..i + |pat|][k] == s[i + k];
    }
  }

  // ---------------------------------------------------------------------------
  // Decimal digits
  // ---------------------------------------------------------------------------

  predicate IsAsciiDigit(c: char)
  {
    '0' <= c <= '9'
  }

  function DigitChar(d: nat): (c: char)
    requires d < 10
    ensures IsAsciiDigit(c)
  {
    ('0' as int + d) as char
  }

  function DigitValue(c: char): (d: nat)
    requires IsAsciiDigit(c)
    ensures d < 10 && DigitChar(d) == c
  {
    c as int - '0' as int
  }

  /** The decimal digits of `n`, without leading zeros (str(n) in Python,
      String(n) in JavaScript for small integers). */
  function DecimalString(n: nat): (r: string)
    ensures |r| > 0
    ensures forall k :: 0 <= k < |r| ==> IsAsciiDigit(r[k])
  {
    if n < 10 then [DigitChar(n)] else DecimalString(n / 10) + [DigitChar(n % 10)]
  }

  lemma {:induction false} DecimalStringNoLeadingZero(n: nat)
    requires n > 0
    ensures DecimalString(n)[0] != '0'
  {
    if n >= 10 {
      DecimalStringNoLeadingZero(n / 10);
    }
  }

  /** The number a string of decimal digits denotes. */
  function DigitsValue(s: string): nat
    requires forall k :: 0 <= k < |s| ==> IsAsciiDigit(s[k])
  {
    if s == [] then 0 else DigitsValue(s[..|s| - 1]) * 10 + DigitValue(s[|s| - 1])
  }

  lemma {:induction false} DecimalStringRoundTrip(n: nat)
    ensures DigitsValue(DecimalString(n)) == n
  {
    if n >= 10 {
      var r := DecimalString(n);
      assert r[..|r| - 1] == DecimalString(n / 10);
      DecimalStringRoundTrip(n / 10);
    }
  }

  /** The decimal rendering of a possibly negative integer, with a leading '-'. */
  function SignedDecimal(n: int): string
  {
    if n < 0 then "-" + DecimalString(-n) else DecimalString(n)
  }
}
