/** The range index over code points (`intranges.py`): a list of numbers packed into words
    `start << 32 | end`, and membership by bisection. */
module IntRanges {
  import opened Integers

  const WORD: int := 0x1_0000_0000
  const MAX: int := 0xFFFF_FFFF

  datatype Range = Range(start: int, end: int) {
    predicate Covers(x: int) {
      start <= x < end
    }
  }

  predicate Ascending(s: seq<int>) {
    forall i, j :: 0 <= i < j < |s| ==> s[i] <= s[j]
  }

  function Insert(x: int, s: seq<int>): seq<int> {
    if s == [] || x <= s[0] then [x] + s else [s[0]] + Insert(x, s[1..])
  }

  /** The built-in `sorted`. */
  function Sorted(s: seq<int>): seq<int> {
    if s == [] then [] else Insert(s[0], Sorted(s[1..]))
  }

  lemma {:induction false} InsertKeeps(x: int, s: seq<int>)
    ensures multiset(Insert(x, s)) == multiset{x} + multiset(s)
    ensures |Insert(x, s)| == |s| + 1 && (Insert(x, s)[0] == x || (s != [] && Insert(x, s)[0] == s[0]))
  {
    if s != [] && x > s[0] {
      InsertKeeps(x, s[1..]);
      assert s == [s[0]] + s[1..];
    }
  }

  lemma {:induction false} InsertAscends(x: int, s: seq<int>)
    requires Ascending(s)
    ensures Ascending(Insert(x, s))
  {
    if s != [] && x > s[0] {
      InsertAscends(x, s[1..]);
      InsertKeeps(x, s[1..]);
      var rest := Insert(x, s[1..]);
      assert forall k :: 0 <= k < |rest| ==> rest[0] <= rest[k];
    }
  }

  lemma {:induction false} SortedMeaning(s: seq<int>)
    ensures Ascending(Sorted(s)) && multiset(Sorted(s)) == multiset(s)
  {
    if s != [] {
      SortedMeaning(s[1..]);
      InsertAscends(s[0], Sorted(s[1..]));
      InsertKeeps(s[0], Sorted(s[1..]));
      assert s == [s[0]] + s[1..];
    }
  }

  /** Bitwise or of integers, whose negative values have infinitely many leading ones. */
  function Or(a: int, b: int): int
    decreases Abs(a)
  {
    if a == 0 then b
    else if b == 0 then a
    else if a == -1 || b == -1 then -1
    else 2 * Or(a / 2, b / 2) + (if a % 2 == 1 || b % 2 == 1 then 1 else 0)
  }

  /** The binary digit of a number at 2^i, for negative ones too. */
  function Bit(n: int, i: nat): int
    decreases i
  {
    if i == 0 then n % 2 else Bit(n / 2, i - 1)
  }

  lemma OrHalves(a: int, b: int)
    ensures Or(a, b) / 2 == Or(a / 2, b / 2)
    ensures Or(a, b) % 2 == 1 <==> a % 2 == 1 || b % 2 == 1
  {}

  /** It is the bitwise or: each digit is 1 exactly when it is 1 in one of the two. */
  lemma {:induction false} OrBits(a: int, b: int, i: nat)
    ensures Bit(Or(a, b), i) == 1 <==> Bit(a, i) == 1 || Bit(b, i) == 1
    decreases i
  {
    OrHalves(a, b);
    hide Or;
    if i > 0 {
      OrBits(a / 2, b / 2, i - 1);
    }
  }

  function EncodeRange(start: int, end: int): int {
    Or(start * WORD, end)
  }

  /** `r >> 32` and `r & (1 << 32) - 1` are the quotient and the remainder that are rounded down. */
  function DecodeRange(r: int): Range {
    Range(r / WORD, r % WORD)
  }

  function EncodeAll(ranges: seq<Range>): seq<int> {
    seq(|ranges|, k requires 0 <= k < |ranges| => EncodeRange(ranges[k].start, ranges[k].end))
  }

  /** The runs of consecutive numbers in a sorted list; a repeated number starts a new run. */
  function Runs(s: seq<int>): (r: seq<Range>)
    ensures s != [] ==> r != [] && r[0].start == s[0]
  {
    if s == [] then
      []
    else
      var rest := Runs(s[1..]);
      if |s| > 1 && s[0] + 1 == s[1] then
        [Range(s[0], rest[0].end)] + rest[1..]
      else
        [Range(s[0], s[0] + 1)] + rest
  }

  predicate Consecutive(s: seq<int>) {
    forall i :: 0 <= i < |s| ==> s[i] == s[0] + i
  }

  /** A stretch of consecutive numbers that the next number does not extend is the first run. */
  lemma {:induction false} FirstRun(s: seq<int>, n: nat)
    requires 0 < n <= |s| && Consecutive(s[..n]) && (n < |s| ==> s[n - 1] + 1 != s[n])
    ensures Runs(s) == [Range(s[0], s[n - 1] + 1)] + Runs(s[n..])
  {
    if n > 1 {
      assert s[..n][1] == s[1] && s[..n][0] == s[0];
      var tail := s[1..][..n - 1];
      forall i | 0 <= i < |tail| ensures tail[i] == tail[0] + i {
        assert s[..n][i + 1] == s[..n][0] + i + 1;
      }
      FirstRun(s[1..], n - 1);
      assert s[1..][n - 1..] == s[n..];
    }
  }

  lemma Extend(s: seq<int>, from: nat, i: nat)
    requires from <= i < |s|
    requires from < i ==> Consecutive(s[from..i]) && s[i - 1] + 1 == s[i]
    ensures Consecutive(s[from..i + 1])
  {
    var run, longer := s[from..i], s[from..i + 1];
    forall j | 0 <= j < |longer| ensures longer[j] == longer[0] + j {
      if j < |run| {
        assert run[j] == run[0] + j;
      } else if from < i {
        assert run[j - 1] == run[0] + (j - 1);
      }
    }
  }

  /** Writing the numbers from..i as one range keeps the whole index. */
  lemma WriteRun(s: seq<int>, from: nat, i: nat)
    requires from <= i < |s| && Consecutive(s[from..i + 1])
    requires i + 1 < |s| ==> s[i] + 1 != s[i + 1]
    ensures EncodeAll(Runs(s[from..])) == [EncodeRange(s[from], s[i] + 1)] + EncodeAll(Runs(s[i + 1..]))
  {
    var left := s[from..];
    var n := i + 1 - from;
    assert left[..n] == s[from..i + 1] && left[n..] == s[i + 1..];
    FirstRun(left, n);
  }

  /** `intranges_from_list`: `lastWrite` is the index of the last number already in a range. */
  method IntrangesFromList(list: seq<int>) returns (ranges: seq<int>)
    ensures ranges == EncodeAll(Runs(Sorted(list)))
  {
    hide Runs, EncodeAll, EncodeRange, Sorted, Consecutive;
    var sorted := Sorted(list);
    ranges := [];
    var lastWrite := -1;
    assert sorted[0..] == sorted;
    for i := 0 to |sorted|
      invariant -1 <= lastWrite < i
      invariant ranges + EncodeAll(Runs(sorted[lastWrite + 1..])) == EncodeAll(Runs(sorted))
      invariant lastWrite + 1 < i < |sorted| ==> Consecutive(sorted[lastWrite + 1..i]) && sorted[i - 1] + 1 == sorted[i]
      invariant i == |sorted| ==> lastWrite == i - 1
    {
      Extend(sorted, lastWrite + 1, i);
      if i + 1 < |sorted| {
        if sorted[i] + 1 == sorted[i + 1] {
          continue;
        }
      }
      var currentRange := sorted[lastWrite + 1..i + 1];
      WriteRun(sorted, lastWrite + 1, i);
      ranges := ranges + [EncodeRange(currentRange[0], currentRange[|currentRange| - 1] + 1)];
      lastWrite := i;
    }
    assert sorted[lastWrite + 1..] == [];
    NoRuns();
    assert ranges + [] == ranges;
  }

  lemma NoRuns()
    ensures EncodeAll(Runs([])) == []
  {}

  /** Where `bisect_left` ends when it starts with the bounds `lo` and `hi`. */
  function Bisect(a: seq<int>, x: int, lo: nat, hi: nat): (pos: nat)
    requires lo <= hi <= |a|
    ensures lo <= pos <= hi
    decreases hi - lo
  {
    if lo == hi then
      lo
    else
      var mid := (lo + hi) / 2;
      if a[mid] < x then Bisect(a, x, mid + 1, hi) else Bisect(a, x, lo, mid)
  }

  method BisectLeft(a: seq<int>, x: int) returns (pos: nat)
    ensures pos == Bisect(a, x, 0, |a|)
  {
    var lo, hi := 0, |a|;
    while lo < hi
      invariant lo <= hi <= |a| && Bisect(a, x, lo, hi) == Bisect(a, x, 0, |a|)
    {
      var mid := (lo + hi) / 2;
      if a[mid] < x {
        lo := mid + 1;
      } else {
        hi := mid;
      }
    }
    return lo;
  }

  /** In an ordered list the bisection separates the smaller words from the others. */
  lemma {:induction false} BisectSeparates(a: seq<int>, x: int, lo: nat, hi: nat)
    requires lo <= hi <= |a| && Ascending(a)
    requires (forall k :: 0 <= k < lo ==> a[k] < x) && (forall k :: hi <= k < |a| ==> x <= a[k])
    ensures forall k :: 0 <= k < Bisect(a, x, lo, hi) ==> a[k] < x
    ensures forall k :: Bisect(a, x, lo, hi) <= k < |a| ==> x <= a[k]
    decreases hi - lo
  {
    if lo < hi {
      var mid := (lo + hi) / 2;
      if a[mid] < x {
        BisectSeparates(a, x, mid + 1, hi);
      } else {
        BisectSeparates(a, x, lo, mid);
      }
    }
  }

  /** The answer when the two candidate words are those around position `pos`. */
  predicate FoundAt(x: int, ranges: seq<int>, pos: nat)
    requires pos <= |ranges|
  {
    || (pos > 0 && DecodeRange(ranges[pos - 1]).Covers(x))
    || (pos < |ranges| && DecodeRange(ranges[pos]).start == x)
  }

  predicate Contains(x: int, ranges: seq<int>) {
    FoundAt(x, ranges, Bisect(ranges, EncodeRange(x, 0), 0, |ranges|))
  }

  /** `intranges_contain`. */
  method IntrangesContain(x: int, ranges: seq<int>) returns (found: bool)
    ensures found == Contains(x, ranges)
  {
    var tuple := EncodeRange(x, 0);
    var pos := BisectLeft(ranges, tuple);
    if pos > 0 {
      var range := DecodeRange(ranges[pos - 1]);
      if range.start <= x < range.end {
        return true;
      }
    }
    if pos < |ranges| {
      if DecodeRange(ranges[pos]).start == x {
        return true;
      }
    }
    return false;
  }

  // ----- What the runs of a list are -----

  /** How many ranges cover x. */
  function Coverage(ranges: seq<Range>, x: int): nat {
    if ranges == [] then 0 else (if ranges[0].Covers(x) then 1 else 0) + Coverage(ranges[1..], x)
  }

  /** Every number is covered as often as it occurs: nothing is lost, added or merged twice. */
  lemma {:induction false} RunsCover(s: seq<int>, x: int)
    ensures Coverage(Runs(s), x) == multiset(s)[x]
  {
    if s != [] {
      RunsCover(s[1..], x);
      assert s == [s[0]] + s[1..];
      assert multiset(s) == multiset{s[0]} + multiset(s[1..]);
      RunsNonempty(s[1..]);
      var rest := Runs(s[1..]);
      if |s| > 1 && s[0] + 1 == s[1] {
        assert Runs(s)[1..] == rest[1..];
      } else {
        assert Runs(s)[1..] == rest;
      }
    }
  }

  lemma {:induction false} RunsNonempty(s: seq<int>)
    ensures forall k :: 0 <= k < |Runs(s)| ==> Runs(s)[k].start < Runs(s)[k].end
  {
    if s != [] {
      RunsNonempty(s[1..]);
    }
  }

  lemma {:induction false} CoveredSomewhere(ranges: seq<Range>, x: int)
    ensures Coverage(ranges, x) > 0 <==> exists k :: 0 <= k < |ranges| && ranges[k].Covers(x)
  {
    if ranges != [] {
      CoveredSomewhere(ranges[1..], x);
      assert forall k :: 1 <= k < |ranges| ==> ranges[k] == ranges[1..][k - 1];
      if k :| 0 <= k < |ranges[1..]| && ranges[1..][k].Covers(x) {
        assert ranges[k + 1].Covers(x);
      }
    }
  }

  lemma {:induction false} CoveredTwice(ranges: seq<Range>, x: int)
    ensures Coverage(ranges, x) > 1 <==>
            exists i, j :: 0 <= i < j < |ranges| && ranges[i].Covers(x) && ranges[j].Covers(x)
  {
    if ranges != [] {
      var rest := ranges[1..];
      CoveredSomewhere(rest, x);
      CoveredTwice(rest, x);
      assert forall k :: 1 <= k < |ranges| ==> ranges[k] == rest[k - 1];
      if k :| 0 <= k < |rest| && rest[k].Covers(x) {
        assert ranges[k + 1].Covers(x);
      }
      if i, j :| 0 <= i < j < |rest| && rest[i].Covers(x) && rest[j].Covers(x) {
        assert ranges[i + 1].Covers(x) && ranges[j + 1].Covers(x);
      }
    }
  }

  /** A later range starts at the earlier one's last number or after it. */
  predicate Spaced(ranges: seq<Range>) {
    && (forall k :: 0 <= k < |ranges| ==> ranges[k].start < ranges[k].end)
    && (forall i, j :: 0 <= i < j < |ranges| ==> ranges[i].end - 1 <= ranges[j].start)
  }

  lemma {:induction false} RunsBounded(s: seq<int>)
    requires Ascending(s)
    ensures forall r :: r in Runs(s) ==> s[0] <= r.start < r.end <= s[|s| - 1] + 1
  {
    if |s| > 1 {
      RunsBounded(s[1..]);
      assert s[1..][|s[1..]| - 1] == s[|s| - 1];
    }
  }

  lemma SpacedPrepend(r: Range, ranges: seq<Range>)
    requires Spaced(ranges) && r.start < r.end
    requires forall q :: q in ranges ==> r.end - 1 <= q.start
    ensures Spaced([r] + ranges)
  {
    var all := [r] + ranges;
    assert forall k :: 1 <= k < |all| ==> all[k] == ranges[k - 1] && all[k] in ranges;
  }

  lemma {:induction false} RunsSpaced(s: seq<int>)
    requires Ascending(s)
    ensures Spaced(Runs(s))
  {
    if |s| > 1 {
      RunsSpaced(s[1..]);
      RunsBounded(s[1..]);
      var rest := Runs(s[1..]);
      if s[0] + 1 == s[1] {
        SpacedTail(rest);
        SpacedPrepend(Range(s[0], rest[0].end), rest[1..]);
      } else {
        SpacedPrepend(Range(s[0], s[0] + 1), rest);
      }
    }
  }

  lemma SpacedTail(ranges: seq<Range>)
    requires Spaced(ranges) && ranges != []
    ensures Spaced(ranges[1..]) && forall q :: q in ranges[1..] ==> ranges[0].end - 1 <= q.start
  {
    assert forall k :: 0 <= k < |ranges[1..]| ==> ranges[1..][k] == ranges[k + 1];
  }

  /** Neighbouring numbers of the list share a run. */
  lemma {:induction false} NeighboursShareRun(s: seq<int>, x: int) returns (k: nat)
    requires Ascending(s) && x in s && x + 1 in s
    ensures k < |Runs(s)| && Runs(s)[k].Covers(x) && Runs(s)[k].Covers(x + 1)
  {
    RunsNonempty(s[1..]);
    var rest := Runs(s[1..]);
    if s[0] == x && s[1] != x {
      assert s[1] == x + 1 by {
        var i :| 0 <= i < |s| && s[i] == x + 1;
        assert s[1] <= s[i];
      }
      k := 0;
    } else {
      assert x in s[1..] && x + 1 in s[1..];
      var j := NeighboursShareRun(s[1..], x);
      k := if s[0] + 1 == s[1] then j else j + 1;
    }
  }

  // ----- What the words mean -----

  function Shifted(a: int, k: nat): int {
    if k == 0 then a else 2 * Shifted(a, k - 1)
  }

  lemma {:induction false} OrShifted(a: int, b: int, k: nat)
    ensures Or(Shifted(a, k), Shifted(b, k)) == Shifted(Or(a, b), k)
  {
    if k > 0 {
      OrShifted(a, b, k - 1);
    }
  }

  lemma {:induction false} OrDisjoint(a: int, b: int, k: nat)
    requires 0 <= b < Shifted(1, k)
    ensures Or(Shifted(a, k), b) == Shifted(a, k) + b
  {
    if k > 0 {
      OrDisjoint(a, b / 2, k - 1);
    }
  }

  lemma {:induction false} ShiftedIsProduct(a: int, k: nat)
    ensures Shifted(a, k) == a * Shifted(1, k)
  {
    if k > 0 {
      ShiftedIsProduct(a, k - 1);
    }
  }

  lemma Doubled(k: nat, power: int)
    requires Shifted(1, k) == power
    ensures Shifted(1, 2 * k) == power * power
  {
    ShiftedTwice(1, k, k);
    ShiftedIsProduct(power, k);
  }

  lemma {:induction false} ShiftedTwice(a: int, j: nat, k: nat)
    ensures Shifted(a, j + k) == Shifted(Shifted(a, j), k)
  {
    if k > 0 {
      ShiftedTwice(a, j, k - 1);
    }
  }

  lemma ShiftedByWord(a: int)
    ensures Shifted(a, 32) == a * WORD
  {
    ShiftedIsProduct(a, 32);
    assert Shifted(1, 2) == 4;
    Doubled(2, 4);
    Doubled(4, 16);
    Doubled(8, 256);
    Doubled(16, 65536);
  }

  /** A range that ends below 2^32 is recovered; one that ends at 2^32 has its end folded into its start. */
  lemma EncodeMeaning(start: int, end: int)
    requires 0 <= end <= WORD
    ensures end < WORD ==> EncodeRange(start, end) == start * WORD + end
    ensures end < WORD ==> DecodeRange(EncodeRange(start, end)) == Range(start, end)
    ensures end == WORD ==> EncodeRange(start, end) == Or(start, 1) * WORD
    ensures end == WORD ==> DecodeRange(EncodeRange(start, end)) == Range(Or(start, 1), 0)
  {
    ShiftedByWord(start);
    ShiftedByWord(1);
    if end < WORD {
      OrDisjoint(start, end, 32);
      ModUnique(start * WORD + end, WORD, start, end);
    } else {
      OrShifted(start, 1, 32);
      ShiftedByWord(Or(start, 1));
      ModUnique(Or(start, 1) * WORD, WORD, Or(start, 1), 0);
    }
  }

  lemma OrOne(a: int)
    ensures Or(a, 1) == if a % 2 == 1 then a else a + 1
  {}

  // ----- The index against the list -----

  /** The ranges whose words the search can rely on: any below 2^32, and the largest number alone. */
  predicate Reliable(r: Range) {
    0 <= r.start < r.end <= WORD && (r.end == WORD ==> r.start == MAX)
  }

  function Word(r: Range): int {
    r.start * WORD + if r.end == WORD then 0 else r.end
  }

  lemma WordParts(r: Range)
    requires Reliable(r)
    ensures DecodeRange(Word(r)) == Range(r.start, if r.end == WORD then 0 else r.end)
  {
    ModUnique(Word(r), WORD, r.start, if r.end == WORD then 0 else r.end);
  }

  lemma WordOrder(q: Range, r: Range)
    requires Reliable(q) && Reliable(r)
    ensures q.start < r.start ==> Word(q) < r.start * WORD
    ensures q.start == r.start && q.end <= r.end ==> Word(q) <= Word(r)
  {
    if q.start < r.start {
      MulMono(q.start + 1, r.start, WORD);
    }
  }

  lemma WordsAscend(ranges: seq<Range>, words: seq<int>)
    requires Spaced(ranges) && |words| == |ranges|
    requires forall k :: 0 <= k < |ranges| ==> Reliable(ranges[k]) && words[k] == Word(ranges[k])
    ensures Ascending(words)
  {
    forall i, j | 0 <= i < j < |words| ensures words[i] <= words[j] {
      WordOrder(ranges[i], ranges[j]);
      assert ranges[i].end - 1 <= ranges[j].start;
    }
  }

  /** The words before the bisection point are those of the ranges that start before x. */
  lemma SplitAtQuery(ranges: seq<Range>, words: seq<int>, x: int) returns (pos: nat)
    requires Spaced(ranges) && |words| == |ranges|
    requires forall k :: 0 <= k < |ranges| ==> Reliable(ranges[k]) && words[k] == Word(ranges[k])
    ensures pos <= |ranges| && (Contains(x, words) <==> FoundAt(x, words, pos))
    ensures forall k :: 0 <= k < |ranges| ==> (k < pos <==> ranges[k].start < x)
  {
    WordsAscend(ranges, words);
    var key := EncodeRange(x, 0);
    EncodeMeaning(x, 0);
    pos := Bisect(words, key, 0, |words|);
    BisectSeparates(words, key, 0, |words|);
    forall k | 0 <= k < |ranges| ensures k < pos <==> ranges[k].start < x {
      if ranges[k].start < x {
        MulMono(ranges[k].start + 1, x, WORD);
      } else {
        MulMono(x, ranges[k].start, WORD);
      }
    }
  }

  /** Looking at the two words around the bisection point is enough. */
  lemma SearchFindsCover(ranges: seq<Range>, words: seq<int>, x: int)
    requires Spaced(ranges) && |words| == |ranges|
    requires forall k :: 0 <= k < |ranges| ==> Reliable(ranges[k]) && words[k] == Word(ranges[k])
    ensures Contains(x, words) <==> exists k :: 0 <= k < |ranges| && ranges[k].Covers(x)
  {
    hide Word, Contains, Bisect, DecodeRange;
    var pos := SplitAtQuery(ranges, words, x);
    if pos > 0 {
      WordParts(ranges[pos - 1]);
    }
    if pos < |ranges| {
      WordParts(ranges[pos]);
      if ranges[pos].start == x {
        assert ranges[pos].Covers(x);
      }
    }
    if k :| 0 <= k < |ranges| && ranges[k].Covers(x) {
      assert k < pos - 1 ==> ranges[k].end - 1 <= ranges[pos - 1].start;
      assert pos < k ==> ranges[pos].end - 1 <= ranges[k].start;
    }
  }

  function Index(list: seq<int>): seq<int> {
    EncodeAll(Runs(Sorted(list)))
  }

  /** The one kind of list of 32-bit numbers whose index loses members: the largest number occurs
      in it and so does, exactly once, the number before. */
  predicate Overflows(list: seq<int>) {
    MAX in list && multiset(list)[MAX - 1] == 1
  }

  lemma CoverageOfList(list: seq<int>, x: int)
    ensures Coverage(Runs(Sorted(list)), x) == multiset(list)[x]
    ensures x in list <==> exists k :: 0 <= k < |Runs(Sorted(list))| && Runs(Sorted(list))[k].Covers(x)
  {
    SortedMeaning(list);
    RunsCover(Sorted(list), x);
    CoveredSomewhere(Runs(Sorted(list)), x);
    assert x in list <==> x in multiset(list);
  }

  lemma RunsOfWords(list: seq<int>)
    requires forall x :: x in list ==> 0 <= x <= MAX
    ensures Spaced(Runs(Sorted(list)))
    ensures forall r :: r in Runs(Sorted(list)) ==> 0 <= r.start < r.end <= WORD
  {
    SortedMeaning(list);
    var s := Sorted(list);
    RunsSpaced(s);
    RunsBounded(s);
    if s != [] {
      assert s[0] in multiset(s) && s[|s| - 1] in multiset(s);
      assert s[0] in list && s[|s| - 1] in list;
    }
  }

  /** What the word of a run really stands for. */
  function Normal(r: Range): Range {
    if r.end == WORD && r.start == MAX - 1 then Range(MAX, WORD) else r
  }

  /** Unless the list overflows, only the two largest numbers can open a run that ends at 2^32. */
  lemma LastRuns(list: seq<int>, k: nat)
    requires forall x :: x in list ==> 0 <= x <= MAX
    requires !Overflows(list)
    requires k < |Runs(Sorted(list))| && Runs(Sorted(list))[k].end == WORD
    ensures Runs(Sorted(list))[k].start >= MAX - 1
    ensures Runs(Sorted(list))[k].start == MAX - 1 ==> multiset(list)[MAX - 1] > 1
  {
    hide Runs, Sorted, Coverage;
    var ranges := Runs(Sorted(list));
    RunsOfWords(list);
    CoverageOfList(list, MAX);
    CoverageOfList(list, MAX - 1);
    assert ranges[k].Covers(MAX);
    if ranges[k].start < MAX {
      assert ranges[k].Covers(MAX - 1);
      CoveredSomewhere(ranges, MAX - 1);
      CoveredTwice(ranges, MAX - 1);
      var i, j :| 0 <= i < j < |ranges| && ranges[i].Covers(MAX - 1) && ranges[j].Covers(MAX - 1);
    }
  }

  lemma NormalWords(list: seq<int>) returns (normal: seq<Range>)
    requires forall x :: x in list ==> 0 <= x <= MAX
    requires !Overflows(list)
    ensures |normal| == |Runs(Sorted(list))| == |Index(list)| && Spaced(normal)
    ensures forall k :: 0 <= k < |normal| ==> normal[k] == Normal(Runs(Sorted(list))[k])
    ensures forall k :: 0 <= k < |normal| ==> Reliable(normal[k]) && Index(list)[k] == Word(normal[k])
  {
    hide Runs, Sorted, Or, EncodeRange, Overflows;
    var ranges := Runs(Sorted(list));
    RunsOfWords(list);
    normal := seq(|ranges|, k requires 0 <= k < |ranges| => Normal(ranges[k]));
    forall k | 0 <= k < |normal| ensures Reliable(normal[k]) && Index(list)[k] == Word(normal[k]) {
      EncodeMeaning(ranges[k].start, ranges[k].end);
      OrOne(ranges[k].start);
      if ranges[k].end == WORD {
        LastRuns(list, k);
      }
    }
  }

  /** Of two ranges that cover the same number, the earlier ends with it. */
  lemma EarlierEnds(ranges: seq<Range>, i: nat, j: nat, x: int)
    requires Spaced(ranges) && i < j < |ranges| && ranges[i].Covers(x) && ranges[j].Covers(x)
    ensures ranges[i].end == x + 1
  {
    assert ranges[i].end - 1 <= ranges[j].start;
  }

  /** A member that its own run's word drops is kept by another run. */
  lemma DroppedIsKept(list: seq<int>, k: nat, x: int) returns (other: nat)
    requires forall y :: y in list ==> 0 <= y <= MAX
    requires !Overflows(list)
    requires k < |Runs(Sorted(list))| && Runs(Sorted(list))[k].Covers(x) && !Normal(Runs(Sorted(list))[k]).Covers(x)
    ensures other < |Runs(Sorted(list))| && Normal(Runs(Sorted(list))[other]).Covers(x)
  {
    hide Runs, Sorted, Overflows, Coverage, Spaced;
    var ranges := Runs(Sorted(list));
    LastRuns(list, k);
    RunsOfWords(list);
    CoverageOfList(list, x);
    CoveredTwice(ranges, x);
    var i, j :| 0 <= i < j < |ranges| && ranges[i].Covers(x) && ranges[j].Covers(x);
    EarlierEnds(ranges, i, j, x);
    other := i;
  }

  /** The index of a list of 32-bit numbers agrees with the list on every query, unless it overflows. */
  lemma IndexAgrees(list: seq<int>, x: int)
    requires forall y :: y in list ==> 0 <= y <= MAX
    requires !Overflows(list)
    ensures Contains(x, Index(list)) <==> x in list
  {
    hide Runs, Sorted, Contains, Overflows, Word, Index;
    var normal := NormalWords(list);
    SearchFindsCover(normal, Index(list), x);
    CoverageOfList(list, x);
    if k :| 0 <= k < |normal| && normal[k].Covers(x) {
      assert Runs(Sorted(list))[k].Covers(x);
    }
    if k :| 0 <= k < |normal| && Runs(Sorted(list))[k].Covers(x) && !normal[k].Covers(x) {
      var other := DroppedIsKept(list, k, x);
      assert normal[other].Covers(x);
    }
  }

  /** In an overflowing list the word of no run mentions the second largest number. */
  lemma OverflowedWord(list: seq<int>, both: nat, k: nat)
    requires forall y :: y in list ==> 0 <= y <= MAX
    requires multiset(list)[MAX - 1] == 1
    requires both < |Runs(Sorted(list))| && k < |Runs(Sorted(list))|
    requires Runs(Sorted(list))[both].Covers(MAX - 1) && Runs(Sorted(list))[both].Covers(MAX)
    ensures !DecodeRange(Index(list)[k]).Covers(MAX - 1) && DecodeRange(Index(list)[k]).start != MAX - 1
  {
    hide Runs, Sorted, Or, EncodeRange, Coverage, Spaced, DecodeRange;
    var r := Runs(Sorted(list))[k];
    RunsOfWords(list);
    CoverageOfList(list, MAX - 1);
    CoveredTwice(Runs(Sorted(list)), MAX - 1);
    assert r in Runs(Sorted(list));
    EncodeMeaning(r.start, r.end);
    OrOne(r.start);
    assert k < both || k == both || both < k;
  }

  /** An overflowing list contains the second largest number and its index denies it. */
  lemma OverflowLosesMember(list: seq<int>)
    requires forall y :: y in list ==> 0 <= y <= MAX
    requires Overflows(list)
    ensures MAX - 1 in list && !Contains(MAX - 1, Index(list))
  {
    var s := Sorted(list);
    SortedMeaning(list);
    assert MAX - 1 in multiset(list) && MAX in multiset(list);
    assert MAX - 1 in s && MAX in s by { assert MAX - 1 in multiset(s) && MAX in multiset(s); }
    var both := NeighboursShareRun(s, MAX - 1);
    hide Runs, Sorted, EncodeRange, Bisect, DecodeRange;
    forall k | 0 <= k < |Runs(s)|
      ensures !DecodeRange(Index(list)[k]).Covers(MAX - 1) && DecodeRange(Index(list)[k]).start != MAX - 1
    {
      OverflowedWord(list, both, k);
    }
  }

  /** For every list of 32-bit numbers, repeated or not: its index and the list have the same members
      exactly when the list does not overflow. */
  lemma IndexAgreesExactly(list: seq<int>)
    requires forall y :: y in list ==> 0 <= y <= MAX
    ensures (forall x: int :: Contains(x, Index(list)) <==> x in list) <==> !Overflows(list)
  {
    if Overflows(list) {
      OverflowLosesMember(list);
    } else {
      forall x: int ensures Contains(x, Index(list)) <==> x in list {
        IndexAgrees(list, x);
      }
    }
  }

  // ----- Maximal runs -----

  predicate MaximalRun(list: seq<int>, r: Range) {
    && r.start < r.end
    && (forall x :: r.start <= x < r.end ==> x in list)
    && r.start - 1 !in list
    && r.end !in list
  }

  /** In a list without repetitions two ranges never cover the same number. */
  lemma CoverIsUnique(list: seq<int>, i: nat, j: nat, x: int)
    requires forall y :: multiset(list)[y] <= 1
    requires i < |Runs(Sorted(list))| && Runs(Sorted(list))[i].Covers(x)
    requires j < |Runs(Sorted(list))| && Runs(Sorted(list))[j].Covers(x)
    ensures i == j
  {
    hide Runs, Sorted;
    CoverageOfList(list, x);
    CoveredTwice(Runs(Sorted(list)), x);
  }

  lemma RunIsMaximal(list: seq<int>, k: nat)
    requires forall y :: multiset(list)[y] <= 1
    requires k < |Runs(Sorted(list))|
    ensures MaximalRun(list, Runs(Sorted(list))[k])
  {
    hide Runs, Sorted;
    var s := Sorted(list);
    var r := Runs(s)[k];
    SortedMeaning(list);
    RunsNonempty(s);
    forall x | r.start <= x < r.end ensures x in list {
      CoverageOfList(list, x);
      assert Runs(s)[k].Covers(x);
    }
    assert forall x :: x in list <==> x in multiset(s);
    assert forall x :: x in multiset(s) <==> x in s;
    if r.start - 1 in list {
      var j := NeighboursShareRun(s, r.start - 1);
      CoverIsUnique(list, j, k, r.start);
    }
    if r.end in list {
      var j := NeighboursShareRun(s, r.end - 1);
      CoverIsUnique(list, j, k, r.end - 1);
    }
  }

  /** For a list without repetitions the ranges are exactly its maximal runs. */
  lemma RangesAreMaximalRuns(list: seq<int>, r: Range)
    requires forall y :: multiset(list)[y] <= 1
    ensures r in Runs(Sorted(list)) <==> MaximalRun(list, r)
  {
    hide Runs, Sorted;
    if k :| 0 <= k < |Runs(Sorted(list))| && Runs(Sorted(list))[k] == r {
      RunIsMaximal(list, k);
    }
    if MaximalRun(list, r) {
      CoverageOfList(list, r.start);
      var k :| 0 <= k < |Runs(Sorted(list))| && Runs(Sorted(list))[k].Covers(r.start);
      RunIsMaximal(list, k);
      SameMaximalRun(list, Runs(Sorted(list))[k], r);
    }
  }

  lemma SameMaximalRun(list: seq<int>, q: Range, r: Range)
    requires MaximalRun(list, q) && MaximalRun(list, r) && q.Covers(r.start)
    ensures q == r
  {
    assert q.start < r.start ==> r.start - 1 in list;
    assert q.end < r.end ==> q.end in list;
    assert r.end < q.end ==> r.end in list;
  }
}
