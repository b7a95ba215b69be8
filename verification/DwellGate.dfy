/** The polling gate: a condition must hold without a break for the whole dwell (pkg/probe/k8s.go). */
module DwellGate {
  import opened Vocabulary

  // ----- One poll's verdict -----

  datatype Condition = ExpectEmpty | AtLeast(n: int) | Contains(text: string)

  /** White space as the source language's text library has it. */
  predicate IsSpace(c: char)
    ensures IsSpace(c) <==> c as int in {
      0x9, 0xa, 0xb, 0xc, 0xd, 0x20, 0x85, 0xa0, 0x1680, 0x2000, 0x2001, 0x2002, 0x2003, 0x2004, 0x2005, 0x2006,
      0x2007, 0x2008, 0x2009, 0x200a, 0x2028, 0x2029, 0x202f, 0x205f, 0x3000}
  {
    c in "\t\n\r " || c in ['\U{b}', '\U{c}', '\U{85}', '\U{a0}', '\U{1680}', '\U{2028}', '\U{2029}', '\U{202f}',
      '\U{205f}', '\U{3000}']
    || '\U{2000}' <= c <= '\U{200a}'
  }

  /** The length of the first run of characters that are not white space. */
  function WordLength(s: string): (n: nat)
    ensures n <= |s|
  {
    if s == "" || IsSpace(s[0]) then 0 else 1 + WordLength(s[1..])
  }

  function Words(s: string): seq<string> {
    if s == "" then []
    else if IsSpace(s[0]) then Words(s[1..])
    else [s[..WordLength(s)]] + Words(s[WordLength(s)..])
  }

  predicate IsBlank(s: string) {
    forall c | c in s :: IsSpace(c)
  }

  predicate IsDigit(c: char)
    ensures IsDigit(c) <==> c in "0123456789"
  {
    '0' <= c <= '9'
  }

  ghost predicate AllDigits(s: string) {
    forall i :: 0 <= i < |s| ==> IsDigit(s[i])
  }

  function Digits(s: string): (n: int)
    requires AllDigits(s)
    ensures n >= 0
  {
    if s == "" then 0 else 10 * Digits(s[..|s| - 1]) + (s[|s| - 1] as int - '0' as int)
  }

  const MAX_INT: int := 0x7fff_ffff_ffff_ffff

  predicate Numeral(s: string) {
    s != "" && forall i | 0 <= i < |s| :: IsDigit(s[i])
  }

  function Unsigned(word: string): string {
    if word != "" && word[0] in "+-" then word[1..] else word
  }

  /** A whole number, signed or not, that fits the source's 64-bit integer. */
  function Number(word: string): Option<int> {
    if !Numeral(Unsigned(word)) then None
    else
      var n := if word[0] == '-' then -Digits(Unsigned(word)) else Digits(Unsigned(word));
      if -MAX_INT - 1 <= n <= MAX_INT then Some(n) else None
  }

  // ----- What numbers and words are -----

  /** The decimal digits of a number, without a leading zero. */
  function Decimal(n: nat): (s: string)
    ensures s != "" && AllDigits(s)
  {
    var last := "0123456789"[n % 10];
    if n < 10 then [last] else Decimal(n / 10) + [last]
  }

  lemma {:induction false} DecimalReads(n: nat)
    ensures Digits(Decimal(n)) == n
    decreases n
  {
    var last := "0123456789"[n % 10];
    assert last as int - '0' as int == n % 10;
    if n < 10 {
      assert [last][..0] == "" && Digits([last][..0]) == 0;
    } else {
      DecimalReads(n / 10);
      assert (Decimal(n / 10) + [last])[..|Decimal(n / 10)|] == Decimal(n / 10);
    }
  }

  /** A number reads back from its sign and decimal text if it fits 64 bits, and one too wide reads as none. */
  lemma NumbersReadBack(sign: string, n: nat)
    requires sign == "" || sign == "+" || sign == "-"
    ensures
      var value := if sign == "-" then -(n as int) else n as int;
      Number(sign + Decimal(n))
        == if -0x8000_0000_0000_0000 <= value <= 0x7fff_ffff_ffff_ffff then Some(value) else None
  {
    var digits := Decimal(n);
    DecimalReads(n);
    assert IsDigit(digits[0]);
    assert Unsigned(sign + digits) == digits by {
      assert sign == "" ==> sign + digits == digits;
      assert sign != "" ==> (sign + digits)[1..] == digits;
    }
    assert Numeral(digits);
  }

  /** Only an optional sign and digits make a number. */
  lemma NumbersAreDigits(word: string)
    ensures Number(word).Some? ==>
      && word != "" && (word[0] in "+-" ==> |word| > 1)
      && (forall i :: 0 < i < |word| ==> word[i] in "0123456789") && word[0] in "+-0123456789"
  {
    if Number(word).Some? {
      var digits := Unsigned(word);
      forall i | 0 <= i < |word| && (word[0] in "+-" ==> i > 0) ensures IsDigit(word[i]) {
        assert word[i] == digits[i - (|word| - |digits|)];
      }
    }
  }

  ghost predicate SpaceFree(s: string) {
    forall i :: 0 <= i < |s| ==> !IsSpace(s[i])
  }

  /** Words with white space between them; front is what stands before the first. */
  ghost function Spaced(front: string, words: seq<string>, gap: string): string
    decreases |words|
  {
    if words == [] then front else front + (words[0] + Spaced(gap, words[1..], gap))
  }

  lemma {:induction false} LeadingSpace(front: string, s: string)
    requires IsBlank(front)
    ensures Words(front + s) == Words(s)
    decreases |front|
  {
    if front == "" {
      assert front + s == s;
    } else {
      assert (front + s)[1..] == front[1..] + s && front[0] in front;
      LeadingSpace(front[1..], s);
    }
  }

  lemma {:induction false} WordEnds(word: string, rest: string)
    requires SpaceFree(word) && (rest == "" || IsSpace(rest[0]))
    ensures WordLength(word + rest) == |word|
    decreases |word|
  {
    if word == "" {
      assert word + rest == rest;
    } else {
      assert (word + rest)[1..] == word[1..] + rest;
      WordEnds(word[1..], rest);
    }
  }

  /** Text splits into exactly its words, whatever white space lies between and around them. */
  lemma {:induction false} WordsOfSpaced(front: string, words: seq<string>, gap: string)
    requires IsBlank(front) && IsBlank(gap) && gap != ""
    requires forall i :: 0 <= i < |words| ==> words[i] != "" && SpaceFree(words[i])
    ensures Words(Spaced(front, words, gap)) == words
    decreases |words|
  {
    LeadingSpace(front, "");
    assert front + "" == front;
    if words != [] {
      var word, rest := words[0], Spaced(gap, words[1..], gap);
      WordsOfSpaced(gap, words[1..], gap);
      assert gap[0] in gap && rest[0] == gap[0];
      LeadingSpace(front, word + rest);
      WordEnds(word, rest);
      assert (word + rest)[..|word|] == word && (word + rest)[|word|..] == rest;
    }
  }

  // ----- When output meets a condition -----

  ghost predicate AllAtLeast(out: string, n: int) {
    && Words(out) != []
    && forall w :: w in Words(out) ==> Number(w).Some? && Number(w).value >= n
  }

  predicate OccursAt(text: string, out: string, i: nat) {
    i + |text| <= |out| && out[i..i + |text|] == text
  }

  predicate Occurs(text: string, out: string) {
    exists i | 0 <= i <= |out| :: OccursAt(text, out, i)
  }

  /** Text occurs in what is that text between two others. */
  lemma OccursBetween(text: string, out: string)
    ensures Occurs(text, out) <==> exists front, back :: out == front + (text + back)
  {
    if Occurs(text, out) {
      var i :| 0 <= i <= |out| && OccursAt(text, out, i);
      assert out == out[..i] + (text + out[i + |text|..]);
    }
    if front, back :| out == front + (text + back) {
      assert OccursAt(text, out, |front|);
    }
  }

  ghost predicate Satisfied(c: Condition, out: string) {
    match c
    case ExpectEmpty => IsBlank(out)
    case AtLeast(n) => AllAtLeast(out, n)
    case Contains(text) => Occurs(text, out)
  }

  /** Every value of the output, not just one of them. */
  method EveryValueAtLeast(out: string, n: int) returns (ok: bool)
    ensures ok <==> AllAtLeast(out, n)
  {
    var fields := Words(out);
    if |fields| == 0 { return false; }
    for i := 0 to |fields|
      invariant forall w :: w in fields[..i] ==> Number(w).Some? && Number(w).value >= n
    {
      assert fields[i] in fields && fields[..i + 1] == fields[..i] + [fields[i]];
      var v := Number(fields[i]);
      if v.None? || v.value < n { return false; }
    }
    assert fields[..|fields|] == fields;
    return true;
  }

  method Check(c: Condition, out: string) returns (ok: bool)
    ensures ok <==> Satisfied(c, out)
  {
    match c
    case ExpectEmpty => return IsBlank(out);
    case AtLeast(n) => ok := EveryValueAtLeast(out, n);
    case Contains(text) => return Occurs(text, out);
  }

  /** Conditions the decoder accepts: none that any output would meet. */
  predicate Stated(c: Condition) {
    match c
    case ExpectEmpty => true
    case AtLeast(n) => n >= 1
    case Contains(text) => text != ""
  }

  lemma {:induction false} BlankHasNoWords(out: string)
    ensures IsBlank(out) <==> Words(out) == []
  {
    if out != "" {
      if IsSpace(out[0]) {
        BlankHasNoWords(out[1..]);
        assert forall c :: c in out <==> c == out[0] || c in out[1..];
      } else {
        assert out[0] in out;
      }
    }
  }

  /** Output that says nothing passes only the gate that asks for nothing; no gate of another kind is vacuous. */
  lemma NoVacuousGate(c: Condition)
    requires Stated(c)
    ensures Satisfied(c, "") <==> c.ExpectEmpty?
    ensures c.AtLeast? ==> forall out :: IsBlank(out) ==> !Satisfied(c, out)
  {
    if c.AtLeast? {
      forall out | IsBlank(out) ensures !Satisfied(c, out) {
        BlankHasNoWords(out);
      }
    }
  }

  // ----- The loop -----

  datatype Limits = Limits(dwell: int, timeout: int, interval: int) {
    predicate Valid() {
      0 <= dwell < timeout && interval > 0
    }
  }

  /**
   * One turn of the loop as the world answers it: what the read returned, the clock just after it, the clock
   * when the deadline was checked, and whether the wait after it was cut short by cancellation.
   */
  datatype Poll = Poll(failed: bool, out: string, at: Time, checkedAt: Time, cancelled: bool)

  /** A monotone clock, never at its zero value, and waits that last at least the interval. */
  ghost predicate Regular(polls: nat -> Poll, start: Time, interval: int) {
    && start > NEVER && start <= polls(0).at
    && (forall i: nat :: polls(i).at <= polls(i).checkedAt)
    && (forall i: nat :: polls(i).checkedAt + interval <= polls(i + 1).at)
  }

  datatype Verdict = Passed | TimedOut(withError: bool) | Cancelled

  ghost predicate Good(polls: nat -> Poll, c: Condition, i: nat) {
    !polls(i).failed && Satisfied(c, polls(i).out)
  }

  /** The polls end, at k, in an unbroken block of good ones that spans the dwell. */
  ghost predicate HeldFor(polls: nat -> Poll, c: Condition, dwell: int, k: nat) {
    exists j: nat :: EndsBlock(polls, c, j, k) && polls(k).at - polls(j).at >= dwell
  }

  ghost predicate EndsBlock(polls: nat -> Poll, c: Condition, j: nat, k: nat) {
    j <= k && forall i :: j <= i <= k ==> Good(polls, c, i)
  }

  ghost predicate GoesOn(polls: nat -> Poll, c: Condition, limits: Limits, start: Time, k: nat) {
    !HeldFor(polls, c, limits.dwell, k) && polls(k).checkedAt <= start + limits.timeout && !polls(k).cancelled
  }

  /** What the loop's hold time means after poll k: the start of the block that poll ends, or nothing. */
  ghost predicate HoldsSince(polls: nat -> Poll, c: Condition, since: Time, k: nat) {
    if !Good(polls, c, k) then since == NEVER
    else exists j: nat :: EndsBlock(polls, c, j, k) && since == polls(j).at && (j > 0 ==> !Good(polls, c, j - 1))
  }

  lemma {:induction false} NeverEarlier(polls: nat -> Poll, start: Time, interval: int, i: nat, j: nat)
    requires Regular(polls, start, interval) && interval > 0 && i <= j
    ensures polls(i).at <= polls(j).at && polls(i).at >= start
    decreases i + j
  {
    if i < j {
      NeverEarlier(polls, start, interval, i, j - 1);
      assert polls(j - 1).checkedAt + interval <= polls(j - 1 + 1).at;
    } else if i > 0 {
      NeverEarlier(polls, start, interval, i - 1, i - 1);
      assert polls(i - 1).checkedAt + interval <= polls(i - 1 + 1).at;
    }
  }

  lemma BlocksNest(polls: nat -> Poll, c: Condition, j: nat, b: nat, k: nat)
    requires j <= k && (j > 0 ==> !Good(polls, c, j - 1)) && EndsBlock(polls, c, b, k)
    ensures j <= b
  {
  }

  /** The maximal block decides: no longer one ends at the same poll. */
  lemma LongestBlock(polls: nat -> Poll, c: Condition, start: Time, limits: Limits, since: Time, k: nat)
    requires limits.Valid() && Regular(polls, start, limits.interval) && HoldsSince(polls, c, since, k)
    ensures HeldFor(polls, c, limits.dwell, k) <==> Good(polls, c, k) && polls(k).at - since >= limits.dwell
    ensures Good(polls, c, k) ==> since >= start
  {
    if Good(polls, c, k) {
      var j: nat :| EndsBlock(polls, c, j, k) && since == polls(j).at && (j > 0 ==> !Good(polls, c, j - 1));
      NeverEarlier(polls, start, limits.interval, j, k);
      if HeldFor(polls, c, limits.dwell, k) {
        var b: nat :| EndsBlock(polls, c, b, k) && polls(k).at - polls(b).at >= limits.dwell;
        BlocksNest(polls, c, j, b, k);
        NeverEarlier(polls, start, limits.interval, j, b);
      }
    }
  }

  lemma HoldGoesOn(polls: nat -> Poll, c: Condition, before: Time, k: nat)
    requires k > 0 ==> HoldsSince(polls, c, before, k - 1)
    requires forall i: nat :: polls(i).at != NEVER
    requires k == 0 ==> before == NEVER
    ensures
      var since := if !Good(polls, c, k) then NEVER else if before == NEVER then polls(k).at else before;
      HoldsSince(polls, c, since, k)
  {
    if Good(polls, c, k) {
      if before == NEVER {
        assert EndsBlock(polls, c, k, k);
      } else {
        var j: nat :| EndsBlock(polls, c, j, k - 1) && before == polls(j).at && (j > 0 ==> !Good(polls, c, j - 1));
        assert EndsBlock(polls, c, j, k);
      }
    }
  }

  lemma {:induction false} ClockMoves(polls: nat -> Poll, start: Time, interval: int, k: nat)
    requires Regular(polls, start, interval) && interval > 0
    ensures polls(k).checkedAt >= start + k * interval
  {
    if k > 0 {
      ClockMoves(polls, start, interval, k - 1);
      assert polls(k - 1).checkedAt + interval <= polls(k - 1 + 1).at;
      assert (k - 1) * interval + interval == k * interval;
    }
  }

  /** A gate that may go on after poll k has not used up its tries. */
  lemma FewEnough(polls: nat -> Poll, start: Time, limits: Limits, k: nat)
    requires limits.Valid() && Regular(polls, start, limits.interval)
    requires polls(k).checkedAt <= start + limits.timeout
    ensures k <= limits.timeout / limits.interval
  {
    ClockMoves(polls, start, limits.interval, k);
    var n := limits.timeout / limits.interval;
    if k >= n + 1 {
      Grows(n + 1, k, limits.interval);
    }
  }

  lemma Grows(a: int, b: int, m: int)
    requires a <= b && m > 0
    ensures a * m <= b * m
  {
    assert (b - a) * m >= 0;
  }

  /** After each poll the hold time decides whether the gate may pass. */
  lemma AfterPoll(polls: nat -> Poll, c: Condition, start: Time, limits: Limits, before: Time, k: nat)
    requires limits.Valid() && Regular(polls, start, limits.interval)
    requires if k == 0 then before == NEVER else HoldsSince(polls, c, before, k - 1)
    ensures
      var since := if !Good(polls, c, k) then NEVER else if before == NEVER then polls(k).at else before;
      && HoldsSince(polls, c, since, k)
      && (HeldFor(polls, c, limits.dwell, k) <==> since != NEVER && polls(k).at - since >= limits.dwell)
  {
    NeverZero(polls, start, limits.interval);
    HoldGoesOn(polls, c, before, k);
    var since := if !Good(polls, c, k) then NEVER else if before == NEVER then polls(k).at else before;
    LongestBlock(polls, c, start, limits, since, k);
  }

  /** Where the loop stands before its next poll. */
  ghost predicate Polling(polls: nat -> Poll, c: Condition, limits: Limits, start: Time, since: Time, attempts: nat)
    requires limits.Valid()
  {
    && attempts <= limits.timeout / limits.interval + 1
    && (if attempts == 0 then since == NEVER else HoldsSince(polls, c, since, attempts - 1))
    && forall k: nat :: k < attempts ==> GoesOn(polls, c, limits, start, k)
  }

  lemma PollAgain(polls: nat -> Poll, c: Condition, limits: Limits, start: Time, since: Time, k: nat)
    requires limits.Valid() && Regular(polls, start, limits.interval)
    requires (forall i: nat :: i < k ==> GoesOn(polls, c, limits, start, i)) && GoesOn(polls, c, limits, start, k)
    requires HoldsSince(polls, c, since, k)
    ensures Polling(polls, c, limits, start, since, k + 1)
  {
    FewEnough(polls, start, limits, k);
  }

  /** What one poll makes of the hold: an error or a condition not met ends it. */
  method Observe(c: Condition, poll: Poll, before: Time) returns (since: Time, lastError: bool)
    ensures lastError == poll.failed
    ensures since
      == if poll.failed || !Satisfied(c, poll.out) then NEVER else if before == NEVER then poll.at else before
  {
    since, lastError := before, poll.failed;
    if poll.failed {
      since := NEVER;
    } else {
      var satisfied := Check(c, poll.out);
      if satisfied {
        if since == NEVER { since := poll.at; }
      } else {
        since := NEVER;
      }
    }
  }

  /**
   * Polls until the condition has held for the dwell, the time is up or the caller gives up: it passes exactly
   * when its polls end in an unbroken block that spans the dwell, and it polls boundedly often.
   */
  method Run(c: Condition, limits: Limits, start: Time, polls: nat -> Poll) returns (verdict: Verdict, attempts: nat)
    requires limits.Valid() && Regular(polls, start, limits.interval)
    ensures 1 <= attempts <= limits.timeout / limits.interval + 2
    ensures forall k: nat :: k < attempts - 1 ==> GoesOn(polls, c, limits, start, k)
    ensures verdict == Passed <==> HeldFor(polls, c, limits.dwell, attempts - 1)
    ensures verdict.TimedOut? ==>
      polls(attempts - 1).checkedAt > start + limits.timeout && verdict.withError == polls(attempts - 1).failed
    ensures verdict.Cancelled? ==>
      polls(attempts - 1).checkedAt <= start + limits.timeout && polls(attempts - 1).cancelled
  {
    var deadline := start + limits.timeout;
    var heldSince, lastError := NEVER, false;
    ghost var most := limits.timeout / limits.interval;
    attempts := 0;
    while true
      invariant Polling(polls, c, limits, start, heldSince, attempts)
      decreases most + 2 - attempts
    {
      ghost var k := attempts;
      attempts := attempts + 1;
      var poll := polls(attempts - 1);
      AfterPoll(polls, c, start, limits, heldSince, k);
      heldSince, lastError := Observe(c, poll, heldSince);
      if heldSince != NEVER && poll.at - heldSince >= limits.dwell {
        return Passed, attempts;
      }
      if poll.checkedAt > deadline {
        return TimedOut(lastError), attempts;
      }
      if poll.cancelled {
        return Cancelled, attempts;
      }
      PollAgain(polls, c, limits, start, heldSince, k);
    }
  }

  lemma NeverZero(polls: nat -> Poll, start: Time, interval: int)
    requires Regular(polls, start, interval) && interval > 0
    ensures forall i: nat :: polls(i).at != NEVER
  {
    forall i: nat ensures polls(i).at != NEVER {
      NeverEarlier(polls, start, interval, i, i);
    }
  }
}
