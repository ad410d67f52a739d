/**
 * Duplicate-name generation of the Data Manager window (DataManager.FindUniqueAssetName).
 *
 * A duplicated asset named "Foo" becomes "Foo (1)", and "Foo (3)" becomes "Foo (4)",
 * or the next number after it whose name is still free in the asset's folder. The
 * folder never changes during one search, so "an asset exists at <folder>/<name>.asset"
 * is modelled as membership of the name in the set `taken`.
 */
module UniqueName {
  import opened Wrappers
  import opened Text
  import Int32

  /** The do-while loop stops once the counter reaches this value. */
  const SafetyLimit: int := 1000

  // ---------------------------------------------------------------------------
  // The pattern ^(.*?)\s*\((\d+)\)$
  // ---------------------------------------------------------------------------

  /** The two captured groups of a successful match. */
  datatype NumberSuffix = NumberSuffix(head: string, digits: string)

  /**
   * s is head, white space, "(", digits, ")" and optionally one final line feed (where
   * `$` also matches), with the lazy group `head` as short as possible: it has no
   * trailing white space, and `.` cannot cross a line feed.
   */
  ghost predicate SuffixMatch(s: string, head: string, ws: string, digits: string) {
    (s == head + ws + "(" + digits + ")" || s == head + ws + "(" + digits + ")" + "\n")
    && '\n' !in head && (head == [] || !IsWhiteSpace(head[|head| - 1]))
    && AllWhiteSpace(ws)
    && |digits| >= 1 && AllDigits(digits)
  }

  /** The part of s the pattern has to match before `$`: s, or s without its final line feed. */
  function BeforeEnd(s: string): (t: string)
    ensures t == s || t + "\n" == s
  {
    if s != [] && s[|s| - 1] == '\n' then s[..|s| - 1] else s
  }

  /** Regex.Match(s, @"^(.*?)\s*\((\d+)\)$"), with `\d` read as the ASCII digits. */
  function MatchNumberSuffix(s: string): (m: Option<NumberSuffix>)
    ensures m.Some? ==> |m.value.digits| >= 1 && AllDigits(m.value.digits)
    ensures m.Some? ==> '\n' !in m.value.head
  {
    var t := BeforeEnd(s);
    if t == [] || t[|t| - 1] != ')' then None else MatchBeforeParen(t[..|t| - 1])
  }

  /** The pattern ^(.*?)\s*\((\d+) against what precedes the closing parenthesis. */
  function MatchBeforeParen(body: string): (m: Option<NumberSuffix>)
    ensures m.Some? ==> |m.value.digits| >= 1 && AllDigits(m.value.digits)
    ensures m.Some? ==> '\n' !in m.value.head
  {
    var k := TrailingDigitCount(body);
    if k == 0 || k == |body| || body[|body| - k - 1] != '(' then None
    else
      var head := TrimEndWhiteSpace(body[..|body| - k - 1]);
      if '\n' in head then None else Some(NumberSuffix(head, body[|body| - k..]))
  }

  /** The white space MatchBeforeParen skipped between the head and the parenthesis. */
  function Gap(body: string, m: NumberSuffix): string {
    if |m.head| + |m.digits| + 1 <= |body| then body[|m.head|..|body| - |m.digits| - 1] else []
  }

  lemma MatchBeforeParenSound(body: string)
    requires MatchBeforeParen(body).Some?
    ensures var m := MatchBeforeParen(body).value;
      && (m.head == [] || !IsWhiteSpace(m.head[|m.head| - 1]))
      && AllWhiteSpace(Gap(body, m)) && body == m.head + Gap(body, m) + "(" + m.digits
  {
    var m := MatchBeforeParen(body).value;
    var k := TrailingDigitCount(body);
    var before := body[..|body| - k - 1];
    var head := TrimEndWhiteSpace(before);
    assert m == NumberSuffix(head, body[|body| - k..]);
    assert AllWhiteSpace(Gap(body, m)) by {
      assert Gap(body, m) == before[|head|..];
    }
    assert head == body[..|head|];
    SliceAround(body, |head|, |body| - k - 1);
  }

  lemma SliceAround(s: string, a: nat, b: nat)
    requires a <= b < |s|
    ensures s == s[..a] + s[a..b] + [s[b]] + s[b + 1..]
  {
  }

  /** Every match the function reports is a decomposition of the name the pattern accepts. */
  lemma MatchSound(s: string)
    requires MatchNumberSuffix(s).Some?
    ensures var m := MatchNumberSuffix(s).value;
      exists ws :: SuffixMatch(s, m.head, ws, m.digits)
  {
    var t := BeforeEnd(s);
    var body := t[..|t| - 1];
    assert t == body + ")";
    assert MatchNumberSuffix(s) == MatchBeforeParen(body);
    MatchBeforeParenSound(body);
    var m := MatchBeforeParen(body).value;
    SuffixMatchOfBody(s, body, m.head, Gap(body, m), m.digits);
  }

  lemma SuffixMatchOfBody(s: string, body: string, head: string, ws: string, digits: string)
    requires BeforeEnd(s) == body + ")"
    requires body == head + ws + "(" + digits
    requires '\n' !in head && (head == [] || !IsWhiteSpace(head[|head| - 1]))
    requires AllWhiteSpace(ws) && |digits| >= 1 && AllDigits(digits)
    ensures SuffixMatch(s, head, ws, digits)
  {
    assert body + ")" == head + ws + "(" + digits + ")";
  }

  lemma TrimEndAppendWhiteSpace(h: string, ws: string)
    requires AllWhiteSpace(ws)
    ensures TrimEndWhiteSpace(h + ws) == TrimEndWhiteSpace(h)
    decreases |ws|
  {
    if ws == [] {
      assert h + ws == h;
    } else {
      var hw := h + ws;
      assert hw[|hw| - 1] == ws[|ws| - 1];
      assert hw[..|hw| - 1] == h + ws[..|ws| - 1];
      TrimEndAppendWhiteSpace(h, ws[..|ws| - 1]);
    }
  }

  lemma TrailingDigitsAfterParen(x: string, digits: string)
    requires AllDigits(digits)
    ensures TrailingDigitCount(x + "(" + digits) == |digits|
    decreases |digits|
  {
    var body := x + "(" + digits;
    if digits == [] {
      assert body[|body| - 1] == '(';
    } else {
      assert body[|body| - 1] == digits[|digits| - 1];
      assert body[..|body| - 1] == x + "(" + digits[..|digits| - 1];
      TrailingDigitsAfterParen(x, digits[..|digits| - 1]);
    }
  }

  lemma MatchBeforeParenComplete(head: string, ws: string, digits: string)
    requires '\n' !in head && (head == [] || !IsWhiteSpace(head[|head| - 1]))
    requires AllWhiteSpace(ws) && |digits| >= 1 && AllDigits(digits)
    ensures MatchBeforeParen(head + ws + "(" + digits) == Some(NumberSuffix(head, digits))
  {
    var x := head + ws;
    var body := x + "(" + digits;
    TrailingDigitsAfterParen(x, digits);
    var k := |digits|;
    assert body[|body| - k - 1] == '(';
    assert body[..|body| - k - 1] == x;
    assert body[|body| - k..] == digits;
    TrimEndAppendWhiteSpace(head, ws);
  }

  /** Every decomposition the pattern accepts is the one the function reports. */
  lemma MatchComplete(s: string, head: string, ws: string, digits: string)
    requires SuffixMatch(s, head, ws, digits)
    ensures MatchNumberSuffix(s) == Some(NumberSuffix(head, digits))
  {
    var t := head + ws + "(" + digits + ")";
    assert BeforeEnd(s) == t by {
      if s != t {
        assert s[..|s| - 1] == t;
      }
    }
    assert t[..|t| - 1] == head + ws + "(" + digits;
    MatchBeforeParenComplete(head, ws, digits);
  }

  // ---------------------------------------------------------------------------
  // Where counting starts
  // ---------------------------------------------------------------------------

  /** The name without its number and the first counter to try. */
  datatype Seed = Seed(prefix: string, start: int)

  /**
   * Lines 339-348 as written: no suffix gives (baseName, 1); a suffix gives the captured
   * head and int.Parse(digits) + 1 in unchecked 32-bit arithmetic, and int.Parse throws
   * on a value above int.MaxValue.
   */
  function SeedOf(baseName: string): (r: Result<Seed>)
    ensures r.Ok? ==> Int32.InRange(r.value.start)
    ensures r.Ok? && r.value.start < 1 ==> r.value.start == Int32.MinValue
  {
    match MatchNumberSuffix(baseName)
    case None => Ok(Seed(baseName, 1))
    case Some(m) =>
      var v := DecimalValue(m.digits);
      if v > Int32.MaxValue then Err(Overflow) else Ok(Seed(m.head, Int32.Increment(v)))
  }

  /** The evidently intended start: the number after the parsed one, without a range limit. */
  function SeedUnbounded(baseName: string): (r: Seed)
    ensures r.start >= 1
  {
    match MatchNumberSuffix(baseName)
    case None => Seed(baseName, 1)
    case Some(m) => Seed(m.head, DecimalValue(m.digits) + 1)
  }

  // ---------------------------------------------------------------------------
  // The search
  // ---------------------------------------------------------------------------

  /** `$"{prefix} ({counter})"`. */
  function Candidate(prefix: string, counter: int): string {
    prefix + " (" + IntToDecimal(counter) + ")"
  }

  /** The integers lo, lo + 1, ..., hi - 1. */
  function Range(lo: int, hi: int): (r: seq<int>)
    ensures |r| == if lo < hi then hi - lo else 0
    ensures forall k :: 0 <= k < |r| ==> r[k] == lo + k
    decreases hi - lo
  {
    if lo >= hi then [] else [lo] + Range(lo + 1, hi)
  }

  /**
   * The counters the do-while loop tries, in order: always `start` (the body runs before
   * the test), then `next` (the counter after the first increment) up to SafetyLimit - 1.
   */
  function Tried(start: int, next: int): (r: seq<int>)
    ensures |r| >= 1 && r[0] == start
  {
    [start] + Range(next, SafetyLimit)
  }

  /** The counter the loop leaves behind when every candidate it tried was taken. */
  function Fallback(next: int): int {
    if next < SafetyLimit then SafetyLimit else next
  }

  /** The candidates of the first k counters are all taken. */
  ghost predicate TakenBefore(prefix: string, counters: seq<int>, taken: set<string>, k: int) {
    forall j :: 0 <= j < k && j < |counters| ==> Candidate(prefix, counters[j]) in taken
  }

  ghost predicate AllTaken(prefix: string, counters: seq<int>, taken: set<string>) {
    TakenBefore(prefix, counters, taken, |counters|)
  }

  /** counters[i] is the first counter whose candidate is free. */
  ghost predicate FirstFreeAt(prefix: string, counters: seq<int>, taken: set<string>, i: int) {
    0 <= i < |counters|
    && Candidate(prefix, counters[i]) !in taken
    && TakenBefore(prefix, counters, taken, i)
  }

  /** When the first candidate is taken, the search over the rest decides. */
  lemma DropTakenFirst(prefix: string, counters: seq<int>, taken: set<string>)
    requires counters != [] && Candidate(prefix, counters[0]) in taken
    ensures forall i :: FirstFreeAt(prefix, counters, taken, i) ==> i >= 1 && FirstFreeAt(prefix, counters[1..], taken, i - 1)
    ensures forall i :: FirstFreeAt(prefix, counters[1..], taken, i) ==> FirstFreeAt(prefix, counters, taken, i + 1)
    ensures AllTaken(prefix, counters[1..], taken) ==> AllTaken(prefix, counters, taken)
  {
    var rest := counters[1..];
    forall i | FirstFreeAt(prefix, counters, taken, i)
      ensures i >= 1 && FirstFreeAt(prefix, rest, taken, i - 1)
    {
      forall j | 0 <= j < i - 1 ensures Candidate(prefix, rest[j]) in taken {
        assert rest[j] == counters[j + 1];
      }
    }
    forall i | FirstFreeAt(prefix, rest, taken, i)
      ensures FirstFreeAt(prefix, counters, taken, i + 1)
    {
      forall j | 0 <= j < i + 1 ensures Candidate(prefix, counters[j]) in taken {
        if j > 0 {
          assert counters[j] == rest[j - 1];
        }
      }
    }
    if AllTaken(prefix, rest, taken) {
      forall j | 0 <= j < |counters| ensures Candidate(prefix, counters[j]) in taken {
        if j > 0 {
          assert counters[j] == rest[j - 1];
        }
      }
    }
  }

  /** The first counter of `counters` whose candidate is free, or `fallback` when none is. */
  function FirstFreeCounter(prefix: string, counters: seq<int>, fallback: int, taken: set<string>): (n: int)
    ensures (exists i :: FirstFreeAt(prefix, counters, taken, i) && n == counters[i])
         || (AllTaken(prefix, counters, taken) && n == fallback)
    ensures forall i :: FirstFreeAt(prefix, counters, taken, i) ==> n == counters[i]
    ensures AllTaken(prefix, counters, taken) ==> n == fallback
  {
    if counters == [] then fallback
    else if Candidate(prefix, counters[0]) !in taken then counters[0]
    else
      var rest := counters[1..];
      var n := FirstFreeCounter(prefix, rest, fallback, taken);
      DropTakenFirst(prefix, counters, taken);
      n
  }

  /** The counter of the name the source returns for a seed, with its 32-bit increment. */
  function SearchCounter(prefix: string, start: int, taken: set<string>): int
    requires Int32.InRange(start)
  {
    var next := Int32.Increment(start);
    FirstFreeCounter(prefix, Tried(start, next), Fallback(next), taken)
  }

  /** The same search with an unbounded counter. */
  function SearchCounterUnbounded(prefix: string, start: int, taken: set<string>): int {
    FirstFreeCounter(prefix, Tried(start, start + 1), Fallback(start + 1), taken)
  }

  lemma TakenBeforeExtend(prefix: string, counters: seq<int>, taken: set<string>, k: nat)
    requires k < |counters| && TakenBefore(prefix, counters, taken, k)
    requires Candidate(prefix, counters[k]) in taken
    ensures TakenBefore(prefix, counters, taken, k + 1)
  {
  }

  // ---------------------------------------------------------------------------
  // What the search returns
  // ---------------------------------------------------------------------------

  /** Distinct counters give distinct candidate names, so no name is tried twice. */
  lemma CandidateInjective(prefix: string, a: int, b: int)
    requires Candidate(prefix, a) == Candidate(prefix, b)
    ensures a == b
  {
    var x, y := Candidate(prefix, a), Candidate(prefix, b);
    assert IntToDecimal(a) == x[|prefix| + 2..|x| - 1];
    assert IntToDecimal(b) == y[|prefix| + 2..|y| - 1];
    IntToDecimalInjective(a, b);
  }

  /** The counters tried: start, then next, next + 1, ... below the limit. */
  lemma TriedShape(start: int, next: int)
    ensures var tried := Tried(start, next);
      && |tried| == 1 + (if next < SafetyLimit then SafetyLimit - next else 0)
      && (forall k :: 1 <= k < |tried| ==> tried[k] == next + k - 1)
      && Fallback(next) == (if next < SafetyLimit then next + |tried| - 1 else next)
  {
    var tried := Tried(start, next);
    forall k | 1 <= k < |tried| ensures tried[k] == next + k - 1 {
      assert tried[k] == Range(next, SafetyLimit)[k - 1];
    }
  }

  /**
   * The do-while loop over a seed: `start` is tried first, whatever its value; if it is
   * taken, the result is the first counter from `next` on whose name is free, or the
   * fallback, which is returned without being checked.
   */
  lemma TriedSearch(prefix: string, start: int, next: int, taken: set<string>)
    ensures var n := FirstFreeCounter(prefix, Tried(start, next), Fallback(next), taken);
      && (Candidate(prefix, start) !in taken ==> n == start)
      && (Candidate(prefix, start) in taken ==>
            && next <= n <= Fallback(next)
            && (forall c :: next <= c < n ==> Candidate(prefix, c) in taken)
            && (n < Fallback(next) ==> Candidate(prefix, n) !in taken))
  {
    var tried := Tried(start, next);
    TriedShape(start, next);
    var n := FirstFreeCounter(prefix, tried, Fallback(next), taken);
    if Candidate(prefix, start) !in taken {
      assert FirstFreeAt(prefix, tried, taken, 0);
    } else {
      forall c | next <= c < n ensures Candidate(prefix, c) in taken {
        assert tried[c - next + 1] == c;
      }
    }
  }

  /**
   * Without wrap-around (start below int.MaxValue): the first counter from `start` whose
   * name is free, looking no further than the limit (1000, or start + 1 when start is
   * already at least 1000), and the limit itself when every name before it is taken.
   */
  lemma SearchFirstFree(prefix: string, start: int, taken: set<string>)
    requires Int32.InRange(start) && start < Int32.MaxValue
    ensures var n := SearchCounter(prefix, start, taken);
      var limit := if start < SafetyLimit then SafetyLimit else start + 1;
      && start <= n <= limit
      && (forall c :: start <= c < n ==> Candidate(prefix, c) in taken)
      && (n < limit ==> Candidate(prefix, n) !in taken)
  {
    assert Int32.Increment(start) == start + 1;
    SearchUnboundedFirstFree(prefix, start, taken);
  }

  /**
   * At int.MaxValue the increment wraps: when that name is taken the loop carries on
   * from int.MinValue up to 1000.
   */
  lemma SearchWrapsAtMax(prefix: string, taken: set<string>)
    ensures var n := SearchCounter(prefix, Int32.MaxValue, taken);
      && (Candidate(prefix, Int32.MaxValue) !in taken ==> n == Int32.MaxValue)
      && (Candidate(prefix, Int32.MaxValue) in taken ==>
            && Int32.MinValue <= n <= SafetyLimit
            && (forall c :: Int32.MinValue <= c < n ==> Candidate(prefix, c) in taken)
            && (n < SafetyLimit ==> Candidate(prefix, n) !in taken))
  {
    TriedSearch(prefix, Int32.MaxValue, Int32.MinValue, taken);
  }

  /** When every name up to the limit is taken, the limit's name is returned although it is taken too. */
  lemma FallbackNotChecked(prefix: string, start: int, taken: set<string>)
    requires Int32.InRange(start) && start < Int32.MaxValue
    requires forall c :: start <= c <= (if start < SafetyLimit then SafetyLimit else start + 1) ==> Candidate(prefix, c) in taken
    ensures SearchCounter(prefix, start, taken) == (if start < SafetyLimit then SafetyLimit else start + 1)
    ensures Candidate(prefix, SearchCounter(prefix, start, taken)) in taken
  {
    SearchFirstFree(prefix, start, taken);
  }

  /** The corrected search: for every start, the first free counter from start up to the limit. */
  lemma SearchUnboundedFirstFree(prefix: string, start: int, taken: set<string>)
    ensures var n := SearchCounterUnbounded(prefix, start, taken);
      var limit := if start < SafetyLimit then SafetyLimit else start + 1;
      && start <= n <= limit
      && (forall c :: start <= c < n ==> Candidate(prefix, c) in taken)
      && (n < limit ==> Candidate(prefix, n) !in taken)
  {
    var tried := Tried(start, start + 1);
    TriedShape(start, start + 1);
    var n := FirstFreeCounter(prefix, tried, Fallback(start + 1), taken);
    if Candidate(prefix, start) !in taken {
      assert FirstFreeAt(prefix, tried, taken, 0);
    } else {
      forall c | start <= c < n ensures Candidate(prefix, c) in taken {
        assert tried[c - start] == c;
      }
    }
  }

  // ---------------------------------------------------------------------------
  // Where counting starts, end to end
  // ---------------------------------------------------------------------------

  /** A name ending in "(digits)" is continued from the parsed value + 1 after the trimmed head. */
  lemma SeedOfSuffix(baseName: string, head: string, ws: string, digits: string)
    requires SuffixMatch(baseName, head, ws, digits)
    ensures var v := DecimalValue(digits);
      && (v < Int32.MaxValue ==> SeedOf(baseName) == Ok(Seed(head, v + 1)))
      && (v == Int32.MaxValue ==> SeedOf(baseName) == Ok(Seed(head, Int32.MinValue)))
      && (v > Int32.MaxValue ==> SeedOf(baseName) == Err(Overflow))
      && SeedUnbounded(baseName) == Seed(head, v + 1)
  {
    MatchComplete(baseName, head, ws, digits);
    SeedOfMatch(baseName, NumberSuffix(head, digits));
  }

  lemma SeedOfMatch(baseName: string, m: NumberSuffix)
    requires MatchNumberSuffix(baseName) == Some(m)
    ensures var v := DecimalValue(m.digits);
      && (v < Int32.MaxValue ==> SeedOf(baseName) == Ok(Seed(m.head, v + 1)))
      && (v == Int32.MaxValue ==> SeedOf(baseName) == Ok(Seed(m.head, Int32.MinValue)))
      && (v > Int32.MaxValue ==> SeedOf(baseName) == Err(Overflow))
      && SeedUnbounded(baseName) == Seed(m.head, v + 1)
  {
  }

  /** A name without such a suffix is numbered from 1 and kept whole as the prefix. */
  lemma SeedOfNoSuffix(baseName: string)
    requires forall head, ws, digits :: !SuffixMatch(baseName, head, ws, digits)
    ensures SeedOf(baseName) == Ok(Seed(baseName, 1))
    ensures SeedUnbounded(baseName) == Seed(baseName, 1)
  {
    if MatchNumberSuffix(baseName).Some? {
      MatchSound(baseName);
      assert false;
    }
  }

  /** Leading zeros are read as a number: "A (007)" is continued from 8. */
  lemma LeadingZerosExample()
    ensures SeedOf("A (007)") == Ok(Seed("A", 8))
  {
    assert SuffixMatch("A (007)", "A", " ", "007") by {
      assert "A (007)" == "A" + " " + "(" + "007" + ")";
      assert AllWhiteSpace(" ");
    }
    assert DecimalValue("007") == 7 by {
      assert "007"[..2] == "00" && "00"[..1] == "0" && "0"[..0] == [];
    }
    SeedOfSuffix("A (007)", "A", " ", "007");
  }

  /**
   * A base name ending in white space is kept whole as the prefix, but the copy's own
   * suffix is then matched after a trimmed head: copying "A " gives "A  (1)", and copying
   * that continues from prefix "A", not "A ".
   */
  lemma CopyOfCopyTrimsPrefix()
    ensures SeedOf("A ") == Ok(Seed("A ", 1))
    ensures Candidate("A ", 1) == "A  (1)"
    ensures SeedOf("A  (1)") == Ok(Seed("A", 2))
  {
    TrailingSpaceNameKeptWhole();
    CandidateOfTrailingSpaceName();
    CopyOfTrailingSpaceName();
  }

  lemma CandidateOfTrailingSpaceName()
    ensures Candidate("A ", 1) == "A  (1)"
  {
    assert IntToDecimal(1) == "1";
    assert "A " + " (" + "1" + ")" == "A  (1)";
  }

  lemma TrailingSpaceNameKeptWhole()
    ensures SeedOf("A ") == Ok(Seed("A ", 1))
  {
    forall head, ws, digits
      ensures !SuffixMatch("A ", head, ws, digits)
    {
      var t := head + ws + "(" + digits + ")";
      assert t[|t| - 1] == ')';
      assert (t + "\n")[|t|] == '\n';
    }
    SeedOfNoSuffix("A ");
  }

  lemma CopyOfTrailingSpaceName()
    ensures SeedOf("A  (1)") == Ok(Seed("A", 2))
  {
    assert SuffixMatch("A  (1)", "A", "  ", "1") by {
      assert "A  (1)" == "A" + "  " + "(" + "1" + ")";
      assert AllWhiteSpace("  ");
    }
    assert DecimalValue("1") == 1 by {
      assert "1"[..0] == [];
    }
    SeedOfSuffix("A  (1)", "A", "  ", "1");
  }

  /** Duplicating "<p> (k)" reads back p and k: the source then searches from k + 1. */
  lemma ContinuesNumbering(p: string, k: nat, taken: set<string>)
    requires '\n' !in p && (p == [] || !IsWhiteSpace(p[|p| - 1]))
    requires k < Int32.MaxValue
    ensures MatchNumberSuffix(Candidate(p, k)) == Some(NumberSuffix(p, NatToDecimal(k)))
    ensures UniqueAssetName(Candidate(p, k), taken) == Ok(Candidate(p, SearchCounter(p, k + 1, taken)))
  {
    ParsesBack(p, k);
    CandidateSeed(p, k);
  }

  /** The start int.Parse(k) + 1 gives for a name "<p> (k)" as the source computes it. */
  lemma CandidateSeed(p: string, k: nat)
    requires '\n' !in p && (p == [] || !IsWhiteSpace(p[|p| - 1]))
    ensures k < Int32.MaxValue ==> SeedOf(Candidate(p, k)) == Ok(Seed(p, k + 1))
    ensures k == Int32.MaxValue ==> SeedOf(Candidate(p, k)) == Ok(Seed(p, Int32.MinValue))
    ensures k > Int32.MaxValue ==> SeedOf(Candidate(p, k)) == Err(Overflow)
  {
    ParsesBack(p, k);
  }

  lemma ParsesBack(p: string, k: nat)
    requires '\n' !in p && (p == [] || !IsWhiteSpace(p[|p| - 1]))
    ensures MatchNumberSuffix(Candidate(p, k)) == Some(NumberSuffix(p, NatToDecimal(k)))
    ensures DecimalValue(NatToDecimal(k)) == k
  {
    CandidateShape(p, k);
    MatchComplete(Candidate(p, k), p, " ", NatToDecimal(k));
    DecimalRoundTrip(k);
  }

  lemma CandidateShape(p: string, k: nat)
    requires '\n' !in p && (p == [] || !IsWhiteSpace(p[|p| - 1]))
    ensures SuffixMatch(Candidate(p, k), p, " ", NatToDecimal(k))
  {
    var d := NatToDecimal(k);
    assert IntToDecimal(k) == d;
    assert p + " (" + d + ")" == p + " " + "(" + d + ")";
    assert AllWhiteSpace(" ");
  }

  /** Finding: "<p> (2147483647)" is continued as "<p> (-2147483648)", a negative number. */
  lemma WrapsToNegative(p: string, taken: set<string>)
    requires '\n' !in p && (p == [] || !IsWhiteSpace(p[|p| - 1]))
    ensures Candidate(p, Int32.MinValue) !in taken ==>
      UniqueAssetName(Candidate(p, Int32.MaxValue), taken) == Ok(Candidate(p, Int32.MinValue))
  {
    CandidateSeed(p, Int32.MaxValue);
    TriedSearch(p, Int32.MinValue, Int32.MinValue + 1, taken);
  }

  /** Finding: a number above int.MaxValue makes int.Parse throw, so nothing is duplicated. */
  lemma OverflowThrows(p: string, k: nat, taken: set<string>)
    requires '\n' !in p && (p == [] || !IsWhiteSpace(p[|p| - 1]))
    requires k > Int32.MaxValue
    ensures UniqueAssetName(Candidate(p, k), taken) == Err(Overflow)
  {
    CandidateSeed(p, k);
  }

  /**
   * The corrected numbering: duplicating "<p> (k)" gives "<p> (n)" for a counter n above k,
   * for every k, with no exception and no negative number.
   */
  lemma UnboundedContinuesNumbering(p: string, k: nat, taken: set<string>)
    requires '\n' !in p && (p == [] || !IsWhiteSpace(p[|p| - 1]))
    ensures var n := SearchCounterUnbounded(p, k + 1, taken);
      n > k && UniqueAssetNameUnbounded(Candidate(p, k), taken) == Candidate(p, n)
  {
    CandidateSeedUnbounded(p, k);
    SearchUnboundedFirstFree(p, k + 1, taken);
  }

  lemma CandidateSeedUnbounded(p: string, k: nat)
    requires '\n' !in p && (p == [] || !IsWhiteSpace(p[|p| - 1]))
    ensures SeedUnbounded(Candidate(p, k)) == Seed(p, k + 1)
  {
    ParsesBack(p, k);
  }

  /**
   * When the start is a positive int below int.MaxValue, the result is "<prefix> (n)" for
   * the first counter n from the start whose name is free (or the unchecked limit).
   */
  lemma ResultFormat(baseName: string, taken: set<string>)
    requires SeedOf(baseName).Ok?
    requires 1 <= SeedOf(baseName).value.start < Int32.MaxValue
    ensures var seed := SeedOf(baseName).value;
      var n := SearchCounter(seed.prefix, seed.start, taken);
      && 1 <= seed.start <= n
      && UniqueAssetName(baseName, taken) == Ok(Candidate(seed.prefix, n))
      && (forall c :: seed.start <= c < n ==> Candidate(seed.prefix, c) in taken)
  {
    var seed := SeedOf(baseName).value;
    SearchFirstFree(seed.prefix, seed.start, taken);
  }

  /** The corrected numbering never produces a counter below 1. */
  lemma UnboundedCounterPositive(baseName: string, taken: set<string>)
    ensures var seed := SeedUnbounded(baseName);
      SearchCounterUnbounded(seed.prefix, seed.start, taken) >= 1
  {
    var seed := SeedUnbounded(baseName);
    SearchUnboundedFirstFree(seed.prefix, seed.start, taken);
  }

  /** One step of the loop: after the increment, the counter is the next one tried, or the loop ends at the fallback. */
  lemma TriedStep(start: int, i: nat)
    requires Int32.InRange(start)
    requires i < |Tried(start, Int32.Increment(start))|
    ensures var next := Int32.Increment(start);
      var tried := Tried(start, next);
      var c := Int32.Increment(tried[i]);
      && (i > 0 ==> tried[i] < SafetyLimit && next < SafetyLimit)
      && (c >= SafetyLimit ==> i + 1 == |tried| && c == Fallback(next))
      && (c < SafetyLimit ==> i + 1 < |tried| && tried[i + 1] == c && next < SafetyLimit)
  {
    var next := Int32.Increment(start);
    var tried := Tried(start, next);
    if i > 0 {
      assert tried[i] == Range(next, SafetyLimit)[i - 1] == next + i - 1;
    }
    if i + 1 < |tried| {
      assert tried[i + 1] == Range(next, SafetyLimit)[i] == next + i;
    }
  }

  /** FindUniqueAssetName as written: Err(Overflow) where int.Parse throws. */
  function UniqueAssetName(baseName: string, taken: set<string>): Result<string> {
    match SeedOf(baseName)
    case Err(e) => Err(e)
    case Ok(seed) => Ok(Candidate(seed.prefix, SearchCounter(seed.prefix, seed.start, taken)))
  }

  /** FindUniqueAssetName with the numbering the method evidently intends. */
  function UniqueAssetNameUnbounded(baseName: string, taken: set<string>): string {
    var seed := SeedUnbounded(baseName);
    Candidate(seed.prefix, SearchCounterUnbounded(seed.prefix, seed.start, taken))
  }

  /**
   * Lines 336-367. The do-while loop tries `counter` and returns its candidate if free;
   * otherwise it increments (wrapping at int.MaxValue) and goes on while counter < 1000.
   */
  method FindUniqueAssetName(baseName: string, taken: set<string>) returns (r: Result<string>)
    ensures r == UniqueAssetName(baseName, taken)
  {
    var nameWithoutNumber := baseName;
    var startNumber := 1;
    var m := MatchNumberSuffix(baseName);
    if m.Some? {
      nameWithoutNumber := m.value.head;
      var parsed := DecimalValue(m.value.digits);
      if parsed > Int32.MaxValue {
        return Err(Overflow);
      }
      startNumber := Int32.Increment(parsed);
    }
    assert SeedOf(baseName) == Ok(Seed(nameWithoutNumber, startNumber));
    ghost var tried := Tried(startNumber, Int32.Increment(startNumber));
    ghost var i := 0;
    var counter := startNumber;
    while true
      invariant Int32.InRange(counter)
      invariant 0 <= i < |tried| && tried[i] == counter
      invariant TakenBefore(nameWithoutNumber, tried, taken, i)
      decreases if counter < SafetyLimit then SafetyLimit - counter else 0x1_0000_0000
    {
      var testName := Candidate(nameWithoutNumber, counter);
      if testName !in taken {
        assert FirstFreeAt(nameWithoutNumber, tried, taken, i);
        assert SearchCounter(nameWithoutNumber, startNumber, taken) == counter;
        return Ok(testName);
      }
      TakenBeforeExtend(nameWithoutNumber, tried, taken, i);
      TriedStep(startNumber, i);
      counter := Int32.Increment(counter);
      i := i + 1;
      if counter >= SafetyLimit {
        assert AllTaken(nameWithoutNumber, tried, taken);
        break;
      }
    }
    assert SearchCounter(nameWithoutNumber, startNumber, taken) == counter;
    return Ok(Candidate(nameWithoutNumber, counter));
  }
}
