/** The agent's own clock: SNTP timestamps, the offset of one exchange, and the median over servers. Times are milliseconds. */
module Clock {
  import opened Lists

  const MAX_ROUND_TRIP_MS := 3_000
  /** Seconds between 1900 and 1970. */
  const NTP_UNIX_DELTA := 2_208_988_800
  const TWO_31 := 0x8000_0000
  const TWO_32 := 0x1_0000_0000

  type Byte = x: int | 0 <= x < 256

  // ---------------------------------------------------------------- timestamps on the wire

  function BigEndian(n: int): (r: seq<Byte>)
    requires 0 <= n < TWO_32
    ensures |r| == 4
  {
    [n / 0x100_0000, n / 0x1_0000 % 256, n / 0x100 % 256, n % 256]
  }

  function FromBigEndian(b: seq<Byte>): (n: int)
    requires |b| == 4
    ensures 0 <= n < TWO_32
  {
    (((b[0] as int) * 256 + b[1] as int) * 256 + b[2] as int) * 256 + b[3] as int
  }

  /** Whole seconds since 1900, cut to 32 bits, and the fraction of a second in units of 2^-32. */
  function ToNtp(unixMs: int): (r: seq<Byte>)
    ensures |r| == 8
  {
    BigEndian((unixMs / 1000 + NTP_UNIX_DELTA) % TWO_32) + BigEndian(unixMs % 1000 * TWO_32 / 1000)
  }

  /** A timestamp below 2^31 seconds is taken to count from 2036, and any other from 1900. */
  function FromNtp(b: seq<Byte>): int
    requires |b| == 8
  {
    var secs, frac := FromBigEndian(b[..4]), FromBigEndian(b[4..]);
    ((if secs < TWO_31 then secs + TWO_32 else secs) - NTP_UNIX_DELTA) * 1000 + frac * 1000 / TWO_32
  }

  lemma {:induction false} BigEndianRoundTrip(n: int)
    requires 0 <= n < TWO_32
    ensures FromBigEndian(BigEndian(n)) == n
  {
    assert n / 0x1_0000 == n / 0x100 / 0x100 && n / 0x100_0000 == n / 0x1_0000 / 0x100;
  }

  /** The millisecond a fraction is read back as: the same one if it is a whole number of eighths of a second, else the one before. */
  lemma {:induction false} FractionRoundTrip(ms: int)
    requires 0 <= ms < 1000
    ensures ms * TWO_32 / 1000 < TWO_32
    ensures ms * TWO_32 / 1000 * 1000 / TWO_32 == if ms % 125 == 0 then ms else ms - 1
  {
    var lost := ms * TWO_32 % 1000;
    assert ms * TWO_32 / 1000 * 1000 == ms * TWO_32 - lost;
    assert lost == 0 <==> ms % 125 == 0 by {
      LostWhen(ms, ms / 125, ms % 125);
    }
  }

  lemma {:induction false} LostWhen(ms: int, q: int, s: int)
    requires ms == 125 * q + s && 0 <= s < 125
    ensures ms * TWO_32 % 1000 == 0 <==> s == 0
  {
    var k := ms * TWO_32 / 1000;
    if ms * TWO_32 % 1000 == 0 {
      // 2^32 * ms == 1000 * k, and 2^32 == 8 * (125 * 4294967 + 37)
      assert 536_870_912 * ms == 125 * k;
      assert 37 * s == 125 * (k - 536_870_912 * q - 4_294_967 * s);
      assert s == 125 * (98 * (k - 536_870_912 * q - 4_294_967 * s) - 29 * s);
    }
  }

  /** The instants a timestamp can stand for: 2^31 seconds after 1900 up to 2^31 seconds into the next era. */
  predicate InEraWindow(unixMs: int) {
    TWO_31 <= unixMs / 1000 + NTP_UNIX_DELTA < TWO_32 + TWO_31
  }

  function ReadBack(unixMs: int): int {
    if unixMs % 125 == 0 then unixMs else unixMs - 1
  }

  lemma {:induction false} SecondsRoundTrip(secs: int)
    ensures var wire := secs % TWO_32;
            (if wire < TWO_31 then wire + TWO_32 else wire) == secs <==> TWO_31 <= secs < TWO_32 + TWO_31
  {}

  /** The seconds and the fraction on the wire. */
  lemma {:induction false} WireParts(unixMs: int)
    ensures FromBigEndian(ToNtp(unixMs)[..4]) == (unixMs / 1000 + NTP_UNIX_DELTA) % TWO_32
    ensures FromBigEndian(ToNtp(unixMs)[4..]) == unixMs % 1000 * TWO_32 / 1000
  {
    FractionRoundTrip(unixMs % 1000);
    var wire, frac := (unixMs / 1000 + NTP_UNIX_DELTA) % TWO_32, unixMs % 1000 * TWO_32 / 1000;
    BigEndianRoundTrip(wire);
    BigEndianRoundTrip(frac);
    assert ToNtp(unixMs)[..4] == BigEndian(wire) && ToNtp(unixMs)[4..] == BigEndian(frac);
  }

  /**
    Main result: within the window of instants a timestamp can stand for, writing and reading an instant gives it back
    if it is a multiple of 125 ms, and the millisecond before otherwise; outside the window it never does.
  */
  lemma {:induction false} NtpRoundTrip(unixMs: int)
    ensures FromNtp(ToNtp(unixMs)) == ReadBack(unixMs) <==> InEraWindow(unixMs)
  {
    hide ToNtp;
    WireParts(unixMs);
    FractionRoundTrip(unixMs % 1000);
    var secs := unixMs / 1000 + NTP_UNIX_DELTA;
    SecondsRoundTrip(secs);
    var wire := secs % TWO_32;
    SameInstant(unixMs, if wire < TWO_31 then wire + TWO_32 else wire);
  }

  lemma {:induction false} SameInstant(unixMs: int, secs: int)
    ensures (secs - NTP_UNIX_DELTA) * 1000 + (if unixMs % 1000 % 125 == 0 then unixMs % 1000 else unixMs % 1000 - 1) == ReadBack(unixMs)
       <==> secs == unixMs / 1000 + NTP_UNIX_DELTA
  {
    var ms := unixMs % 1000;
    assert unixMs == unixMs / 1000 * 1000 + ms;
    assert ms % 125 == unixMs % 125;
    hide ReadBack;
    ReadBackIs(unixMs);
  }

  lemma {:induction false} ReadBackIs(unixMs: int)
    ensures ReadBack(unixMs) == if unixMs % 125 == 0 then unixMs else unixMs - 1
  {}

  // ---------------------------------------------------------------- requests and replies

  datatype Refusal = SHORT | NOT_SERVER_MODE | NOT_SYNCHRONISED | UNUSABLE_STRATUM | NO_MATCH | NO_TRANSMIT_TIME
  datatype Reading = Reading(received: int, transmitted: int)
  datatype ParseResult = Parsed(reading: Reading) | Refused(why: Refusal)

  function Zeros(n: nat): (r: seq<Byte>)
    ensures |r| == n && forall i :: 0 <= i < n ==> r[i] == 0
  {
    seq(n, i => 0)
  }

  /** Version 4, client mode, and the time of sending. */
  function RequestPacket(t1: int): (r: seq<Byte>)
    ensures |r| == 48 && r[40..48] == ToNtp(t1)
  {
    [0x23] + Zeros(39) + ToNtp(t1)
  }

  function ParseReply(reply: seq<Byte>, request: seq<Byte>): ParseResult
    requires |request| == 48
  {
    if |reply| < 48 then Refused(SHORT)
    else if reply[0] % 8 != 4 then Refused(NOT_SERVER_MODE)
    else if reply[0] / 64 == 3 then Refused(NOT_SYNCHRONISED)
    else if !(1 <= reply[1] <= 15) then Refused(UNUSABLE_STRATUM)
    else if reply[24..32] != request[40..48] then Refused(NO_MATCH)
    else if reply[40..48] == Zeros(8) then Refused(NO_TRANSMIT_TIME)
    else Parsed(Reading(FromNtp(reply[32..40]), FromNtp(reply[40..48])))
  }

  /** A synchronised server's reply to the request sent at `t1`, received at `t2` and sent at `t3` by its own clock. */
  ghost predicate ServerReply(reply: seq<Byte>, t1: int, t2: int, t3: int) {
    && |reply| >= 48 && reply[0] % 8 == 4 && reply[0] / 64 != 3 && 1 <= reply[1] <= 15
    && reply[24..32] == ToNtp(t1) && reply[32..40] == ToNtp(t2) && reply[40..48] == ToNtp(t3)
  }

  /** The start of the next era, whose timestamp is all zeros. */
  const ERA_1_START := (TWO_32 - NTP_UNIX_DELTA) * 1000

  lemma {:induction false} ZeroTimestamp(unixMs: int)
    requires InEraWindow(unixMs)
    ensures ToNtp(unixMs) == Zeros(8) <==> unixMs == ERA_1_START
  {
    var secs, frac := (unixMs / 1000 + NTP_UNIX_DELTA) % TWO_32, unixMs % 1000 * TWO_32 / 1000;
    assert ToNtp(unixMs)[..4] == BigEndian(secs) && ToNtp(unixMs)[4..] == BigEndian(frac);
    ZeroBytes(secs);
    FractionRoundTrip(unixMs % 1000);
    ZeroBytes(frac);
    hide BigEndian, ToNtp;
    assert Zeros(8)[..4] == Zeros(4) && Zeros(8)[4..] == Zeros(4);
    assert ToNtp(unixMs) == ToNtp(unixMs)[..4] + ToNtp(unixMs)[4..];
    assert Zeros(8) == Zeros(4) + Zeros(4);
    assert frac == 0 <==> unixMs % 1000 == 0;
  }

  lemma {:induction false} ZeroBytes(n: int)
    requires 0 <= n < TWO_32
    ensures BigEndian(n) == Zeros(4) <==> n == 0
  {
    BigEndianRoundTrip(n);
  }

  /**
    A reply from a synchronised server is read as the server's times, each at most a millisecond early; it is refused
    only if sent in the one millisecond whose timestamp is all zeros.
  */
  lemma {:induction false} ServerReplyParsed(reply: seq<Byte>, t1: int, t2: int, t3: int)
    requires ServerReply(reply, t1, t2, t3) && InEraWindow(t2) && InEraWindow(t3)
    ensures ParseReply(reply, RequestPacket(t1))
         == if t3 == ERA_1_START then Refused(NO_TRANSMIT_TIME) else Parsed(Reading(ReadBack(t2), ReadBack(t3)))
  {
    hide ToNtp, FromNtp, RequestPacket, Zeros, ReadBack, InEraWindow;
    NtpRoundTrip(t2);
    NtpRoundTrip(t3);
    ZeroTimestamp(t3);
  }

  lemma {:induction false} FractionIdentifies(a: int, b: int)
    requires a * TWO_32 / 1000 == b * TWO_32 / 1000
    ensures a == b
  {}

  lemma {:induction false} SecondsIdentify(a: int, b: int)
    requires (a + NTP_UNIX_DELTA) % TWO_32 == (b + NTP_UNIX_DELTA) % TWO_32 && -TWO_32 < a - b < TWO_32
    ensures a == b
  {}

  /** Within 2^32 seconds of each other no two instants, in milliseconds, have the same timestamp. */
  lemma {:induction false} TimestampsIdentify(a: int, b: int)
    requires ToNtp(a) == ToNtp(b) && -TWO_32 < a / 1000 - b / 1000 < TWO_32
    ensures a == b
  {
    hide ToNtp;
    WireParts(a);
    WireParts(b);
    FractionIdentifies(a % 1000, b % 1000);
    SecondsIdentify(a / 1000, b / 1000);
  }

  /** A server's answer to one request is refused as an answer to any other sent within 136 years of it. */
  lemma {:induction false} OtherReplyRefused(reply: seq<Byte>, sent: int, t1: int, t2: int, t3: int)
    requires ServerReply(reply, t1, t2, t3) && sent != t1 && -TWO_32 < sent / 1000 - t1 / 1000 < TWO_32
    ensures ParseReply(reply, RequestPacket(sent)) == Refused(NO_MATCH)
  {
    hide ToNtp, FromNtp, Zeros, RequestPacket;
    if ToNtp(sent) == ToNtp(t1) {
      TimestampsIdentify(sent, t1);
    }
  }

  // ---------------------------------------------------------------- one exchange

  /** Half of `x`, truncated toward zero. */
  function Half(x: int): int {
    if x >= 0 then x / 2 else -((-x) / 2)
  }

  function OffsetMs(t1: int, t2: int, t3: int, t4: int): int {
    Half((t2 - t1) + (t3 - t4))
  }

  function DelayMs(t1: int, t2: int, t3: int, t4: int): int {
    (t4 - t1) - (t3 - t2)
  }

  /** What came back for the request sent at `t1`, and when. */
  datatype Answer = Answer(t1: int, reply: seq<Byte>, t4: int)

  function Query(a: Answer): Option<int> {
    match ParseReply(a.reply, RequestPacket(a.t1))
    case Refused(_) => None
    case Parsed(r) =>
      if 0 <= DelayMs(a.t1, r.received, r.transmitted, a.t4) <= MAX_ROUND_TRIP_MS
      then Some(OffsetMs(a.t1, r.received, r.transmitted, a.t4)) else None
  }

  /** The times read are those of a server whose clock is `theta` ahead, over any non-negative delays, to within `slack`. */
  predicate CorrectReading(a: Answer, theta: int, slack: nat) {
    match ParseReply(a.reply, RequestPacket(a.t1))
    case Refused(_) => false
    case Parsed(r) => a.t1 + theta - slack <= r.received && r.received - slack <= r.transmitted && r.transmitted <= a.t4 + theta
  }

  /** An accepted answer of a correct server is wrong by at most half the round trip allowed. */
  lemma {:induction false} OffsetError(a: Answer, theta: int, slack: nat)
    requires Query(a).Some? && CorrectReading(a, theta, slack)
    ensures theta - 1500 - slack <= Query(a).value <= theta + 1500
  {
    hide ParseReply, RequestPacket;
  }

  /** Read off the wire, a correct server's times are early by at most a millisecond. */
  lemma {:induction false} ServerIsCorrect(a: Answer, t2: int, t3: int, theta: int)
    requires ServerReply(a.reply, a.t1, t2, t3) && InEraWindow(t2) && InEraWindow(t3) && t3 != ERA_1_START
    requires a.t1 + theta <= t2 <= t3 <= a.t4 + theta
    ensures CorrectReading(a, theta, 1)
  {
    hide ParseReply, RequestPacket, ServerReply, InEraWindow;
    ServerReplyParsed(a.reply, a.t1, t2, t3);
  }

  // ---------------------------------------------------------------- the median over servers

  function Value(x: int): int {
    x
  }

  function Sorted(values: seq<int>): seq<int> {
    SortBy(Value, values)
  }

  function MiddleOf(sorted: seq<int>): Option<int> {
    var mid := |sorted| / 2;
    if sorted == [] then None
    else if |sorted| % 2 == 1 then Some(sorted[mid])
    else Some(Half(sorted[mid - 1] + sorted[mid]))
  }

  /** Insertion of the last element of `s + [x]` from the right: the elements from `j` on have been moved up already. */
  lemma {:induction false} InsertAt(s: seq<int>, x: int, j: nat)
    requires j <= |s|
    requires forall k :: j <= k < |s| ==> s[k] > x
    requires j > 0 ==> s[j - 1] <= x
    ensures InsertBy(Value, x, s) == s[..j] + [x] + s[j..]
    decreases |s|
  {
    if j == |s| {
      assert s[..j] == s && s[j..] == [];
      assert InsertBy(Value, x, s) == s + [x];
    } else {
      var front, last := s[..|s| - 1], s[|s| - 1];
      InsertAt(front, x, j);
      assert InsertBy(Value, x, s) == InsertBy(Value, x, front) + [last];
      hide InsertBy;
      assert front[..j] == s[..j];
      assert s == front + [last];
      assert (front + [last])[j..] == front[j..] + [last];
    }
  }

  /** The values inserted so far, in order, and the rest untouched. */
  method SortInPlace(values: array<int>)
    modifies values
    ensures values[..] == Sorted(old(values[..]))
  {
    hide SortBy, InsertBy, SortedBy;
    ghost var was := values[..];
    assert was[..0] == [] && SortBy(Value, []) == [] by {
      SortBySorts(Value, was[..0]);
    }
    for i := 0 to values.Length
      invariant values[..i] == SortBy(Value, was[..i])
      invariant values[i..] == was[i..]
    {
      assert values[i] == values[i..][0] == was[i];
      InsertOne(values, i, was);
    }
    assert values[..values.Length] == values[..] && was[..values.Length] == was;
  }

  method InsertOne(values: array<int>, i: nat, ghost was: seq<int>)
    requires i < values.Length == |was|
    requires values[..i] == SortBy(Value, was[..i]) && values[i..] == was[i..]
    modifies values
    ensures values[..i + 1] == SortBy(Value, was[..i + 1]) && values[i + 1..] == was[i + 1..]
  {
    hide SortBy, InsertBy;
    ghost var sorted := values[..i];
    var x := values[i];
    SortStep(was, i);
    var j := i;
    while j > 0 && values[j - 1] > x
      invariant 0 <= j <= i
      invariant values[..j] == sorted[..j]
      invariant values[j + 1..i + 1] == sorted[j..]
      invariant values[i + 1..] == was[i + 1..]
      invariant forall k :: j <= k < i ==> sorted[k] > x
    {
      assert values[j - 1] == values[..j][j - 1] == sorted[j - 1];
      values[j] := values[j - 1];
      j := j - 1;
    }
    values[j] := x;
    assert j > 0 ==> values[..j][j - 1] == sorted[j - 1];
    InsertAt(sorted, x, j);
    assert values[..i + 1] == values[..j] + [x] + values[j + 1..i + 1];
  }

  lemma {:induction false} SortStep(s: seq<int>, i: nat)
    requires i < |s|
    ensures SortBy(Value, s[..i + 1]) == InsertBy(Value, s[i], SortBy(Value, s[..i]))
  {
    assert s[..i + 1][..i] == s[..i];
  }

  lemma {:induction false} SortedLength(values: seq<int>)
    ensures |Sorted(values)| == |values|
  {
    SortBySorts(Value, values);
  }

  method Median(values: array<int>) returns (r: Option<int>)
    modifies values
    ensures r == MiddleOf(Sorted(old(values[..])))
    ensures values[..] == Sorted(old(values[..]))
  {
    hide Sorted;
    SortedLength(values[..]);
    if values.Length == 0 {
      return None;
    }
    SortInPlace(values);
    var mid := values.Length / 2;
    r := Some(if values.Length % 2 == 1 then values[mid] else Half(values[mid - 1] + values[mid]));
  }

  /** The offsets of the servers that gave an acceptable answer, in order. */
  function OffsetsOf(answers: seq<Option<Answer>>): seq<int> {
    if answers == [] then []
    else
      var a := answers[|answers| - 1];
      OffsetsOf(answers[..|answers| - 1]) + if a.Some? && Query(a.value).Some? then [Query(a.value).value] else []
  }

  function Measured(answers: seq<Option<Answer>>): Option<int> {
    MiddleOf(Sorted(OffsetsOf(answers)))
  }

  /** `answers` holds what came of the query to each server, `None` for none at all. */
  method Measure(answers: seq<Option<Answer>>) returns (r: Option<int>)
    ensures r == Measured(answers)
  {
    hide Query, SortBy, MiddleOf;
    var offsets: seq<int> := [];
    for i := 0 to |answers|
      invariant offsets == OffsetsOf(answers[..i])
    {
      assert answers[..i + 1][..i] == answers[..i];
      if answers[i].Some? {
        var offset := Query(answers[i].value);
        if offset.Some? {
          offsets := offsets + [offset.value];
        }
      }
    }
    assert answers[..|answers|] == answers;
    var values := new int[|offsets|](i requires 0 <= i < |offsets| => offsets[i]);
    assert values[..] == offsets;
    r := Median(values);
  }

  // ---------------------------------------------------------------- a majority of correct servers is enough

  function Within(lo: int, hi: int): int -> bool {
    (x: int) => lo <= x <= hi
  }

  function Count(p: int -> bool, s: seq<int>): (n: nat)
    ensures n <= |s|
  {
    if s == [] then 0 else Count(p, s[..|s| - 1]) + if p(s[|s| - 1]) then 1 else 0
  }

  lemma {:induction false} CountConcat(p: int -> bool, a: seq<int>, b: seq<int>)
    ensures Count(p, a + b) == Count(p, a) + Count(p, b)
  {
    if b == [] {
      assert a + b == a;
    } else {
      CountConcat(p, a, b[..|b| - 1]);
      assert (a + b)[..|a + b| - 1] == a + b[..|b| - 1];
    }
  }

  lemma {:induction false} CountInsert(p: int -> bool, x: int, s: seq<int>)
    ensures Count(p, InsertBy(Value, x, s)) == Count(p, s) + if p(x) then 1 else 0
  {
    if s == [] || s[|s| - 1] <= x {
      assert (s + [x])[..|s|] == s;
    } else {
      var front := s[..|s| - 1];
      CountInsert(p, x, front);
      var r := InsertBy(Value, x, front);
      assert (r + [s[|s| - 1]])[..|r|] == r;
    }
  }

  lemma {:induction false} CountSorted(p: int -> bool, s: seq<int>)
    ensures Count(p, Sorted(s)) == Count(p, s)
  {
    if s != [] {
      hide InsertBy;
      CountSorted(p, s[..|s| - 1]);
      CountInsert(p, s[|s| - 1], Sorted(s[..|s| - 1]));
    }
  }

  lemma {:induction false} CountNone(p: int -> bool, s: seq<int>)
    requires forall x :: x in s ==> !p(x)
    ensures Count(p, s) == 0
  {
    if s != [] {
      var front, last := s[..|s| - 1], s[|s| - 1];
      assert s == front + [last] && last in s;
      CountNone(p, front);
      CountOne(p, front, last);
    }
  }

  /** Of a sorted sequence, if more than half lie in a range then so do the middle elements. */
  lemma {:induction false} MiddleWithin(s: seq<int>, lo: int, hi: int, i: nat)
    requires SortedBy(Value, s) && i < |s| && 2 * Count(Within(lo, hi), s) > |s|
    ensures |s| <= 2 * i + 2 ==> lo <= s[i]
    ensures 2 * i <= |s| ==> s[i] <= hi
  {
    hide Count;
    if s[i] < lo {
      BelowMiss(s, lo, hi, i);
    }
    if s[i] > hi {
      AboveMiss(s, lo, hi, i);
    }
  }

  lemma {:induction false} BelowMiss(s: seq<int>, lo: int, hi: int, i: nat)
    requires SortedBy(Value, s) && i < |s| && s[i] < lo
    ensures Count(Within(lo, hi), s) <= |s| - i - 1
  {
    hide Count;
    var p := Within(lo, hi);
    assert s == s[..i + 1] + s[i + 1..];
    CountConcat(p, s[..i + 1], s[i + 1..]);
    forall x | x in s[..i + 1]
      ensures !p(x)
    {
      var k :| 0 <= k <= i && s[k] == x;
      assert Value(s[k]) <= Value(s[i]);
    }
    CountNone(p, s[..i + 1]);
  }

  lemma {:induction false} AboveMiss(s: seq<int>, lo: int, hi: int, i: nat)
    requires SortedBy(Value, s) && i < |s| && s[i] > hi
    ensures Count(Within(lo, hi), s) <= i
  {
    hide Count;
    var p := Within(lo, hi);
    assert s == s[..i] + s[i..];
    CountConcat(p, s[..i], s[i..]);
    forall x | x in s[i..]
      ensures !p(x)
    {
      var k :| i <= k < |s| && s[k] == x;
      assert Value(s[i]) <= Value(s[k]);
    }
    CountNone(p, s[i..]);
  }

  /** With more than half of the values in a range, the median is in it. */
  lemma {:induction false} MedianWithin(values: seq<int>, lo: int, hi: int)
    requires 2 * Count(Within(lo, hi), values) > |values|
    ensures MiddleOf(Sorted(values)).Some? && lo <= MiddleOf(Sorted(values)).value <= hi
  {
    CountSorted(Within(lo, hi), values);
    SortBySorts(Value, values);
    hide Count, SortBy;
    var s := Sorted(values);
    var mid := |s| / 2;
    MiddleWithin(s, lo, hi, mid);
    if |s| % 2 == 0 {
      MiddleWithin(s, lo, hi, mid - 1);
      assert Value(s[mid - 1]) <= Value(s[mid]);
    }
  }

  lemma {:induction false} SortedStays(s: seq<int>)
    requires SortedBy(Value, s)
    ensures Sorted(s) == s
  {
    if s != [] {
      var front, x := s[..|s| - 1], s[|s| - 1];
      SortedFront(s);
      hide SortedBy;
      SortedStays(front);
      assert InsertBy(Value, x, front) == front + [x];
      hide InsertBy;
      assert s == front + [x];
    }
  }

  lemma {:induction false} SortedFront(s: seq<int>)
    requires SortedBy(Value, s) && s != []
    ensures SortedBy(Value, s[..|s| - 1])
    ensures |s| > 1 ==> Value(s[|s| - 2]) <= Value(s[|s| - 1])
  {}

  function Copies(x: int, n: nat): (r: seq<int>)
    ensures |r| == n && forall i :: 0 <= i < n ==> r[i] == x
  {
    seq(n, i => x)
  }

  /** Without a majority the median can be as wrong as one likes, however many values there are. */
  lemma {:induction false} MajorityNeeded(theta: int, right: nat, wrong: nat, wrongBy: nat)
    requires right <= wrong && wrong > 0
    ensures var values := Copies(theta, right) + Copies(theta + 2 * wrongBy, wrong);
            && Count(Within(theta, theta), values) >= right
            && MiddleOf(Sorted(values)).Some? && theta + wrongBy <= MiddleOf(Sorted(values)).value
  {
    hide Sorted, Count, Copies, MiddleOf;
    var values := Copies(theta, right) + Copies(theta + 2 * wrongBy, wrong);
    TwoValues(theta, right, theta + 2 * wrongBy, wrong);
    MiddleAtLeast(values, theta, theta + 2 * wrongBy);
  }

  lemma {:induction false} TwoValues(low: int, m: nat, high: int, n: nat)
    requires low <= high
    ensures var values := Copies(low, m) + Copies(high, n);
            && Sorted(values) == values && Count(Within(low, low), values) >= m
            && |values| == m + n && (forall i :: 0 <= i < m + n ==> low <= values[i]) && forall i :: m <= i < m + n ==> values[i] == high
  {
    var values := Copies(low, m) + Copies(high, n);
    SortedStays(values);
    CountConcat(Within(low, low), Copies(low, m), Copies(high, n));
    CountAll(Within(low, low), Copies(low, m));
    hide Sorted, Count, SortedBy;
  }

  lemma {:induction false} MiddleAtLeast(s: seq<int>, low: int, high: int)
    requires s != [] && low <= high && s[|s| / 2] == high && (|s| > 1 ==> low <= s[|s| / 2 - 1])
    ensures MiddleOf(s).Some? && low + (high - low) / 2 <= MiddleOf(s).value
  {}

  lemma {:induction false} CountAll(p: int -> bool, s: seq<int>)
    requires forall i :: 0 <= i < |s| ==> p(s[i])
    ensures Count(p, s) == |s|
  {
    if s != [] {
      CountAll(p, s[..|s| - 1]);
    }
  }

  function Accepted(answers: seq<Option<Answer>>): nat {
    |OffsetsOf(answers)|
  }

  /** How many of the accepted answers come from correct servers. */
  function CorrectAccepted(answers: seq<Option<Answer>>, theta: int, slack: nat): nat {
    if answers == [] then 0
    else
      var a := answers[|answers| - 1];
      CorrectAccepted(answers[..|answers| - 1], theta, slack)
      + if a.Some? && Query(a.value).Some? && CorrectReading(a.value, theta, slack) then 1 else 0
  }

  lemma {:induction false} CountOne(p: int -> bool, s: seq<int>, x: int)
    ensures Count(p, s + [x]) == Count(p, s) + if p(x) then 1 else 0
  {
    assert (s + [x])[..|s|] == s;
  }

  lemma {:induction false} CorrectAreClose(answers: seq<Option<Answer>>, theta: int, slack: nat)
    ensures CorrectAccepted(answers, theta, slack) <= Count(Within(theta - 1500 - slack, theta + 1500), OffsetsOf(answers))
  {
    hide Query, CorrectReading, Count;
    if answers != [] {
      var front, a := answers[..|answers| - 1], answers[|answers| - 1];
      CorrectAreClose(front, theta, slack);
      if a.Some? && Query(a.value).Some? {
        CountOne(Within(theta - 1500 - slack, theta + 1500), OffsetsOf(front), Query(a.value).value);
        if CorrectReading(a.value, theta, slack) {
          OffsetError(a.value, theta, slack);
        }
      } else {
        assert OffsetsOf(answers) == OffsetsOf(front);
      }
    }
  }

  /**
    Main result: if more than half of the accepted answers come from correct servers, over any delays, the offset
    measured is within 1500 ms of the true one, whatever the other servers answer; `slack` is the millisecond a
    timestamp may lose on the wire.
  */
  lemma {:induction false} ClockErrorBound(answers: seq<Option<Answer>>, theta: int, slack: nat)
    requires 2 * CorrectAccepted(answers, theta, slack) > Accepted(answers)
    ensures Measured(answers).Some? && theta - 1500 - slack <= Measured(answers).value <= theta + 1500
  {
    hide MiddleOf, Sorted, Count, OffsetsOf, CorrectAccepted;
    CorrectAreClose(answers, theta, slack);
    MedianWithin(OffsetsOf(answers), theta - 1500 - slack, theta + 1500);
  }

  // ---------------------------------------------------------------- from the servers' own times

  /** The answer of a synchronised server whose clock is `theta` ahead of the local one, over any non-negative delays. */
  ghost predicate FromServer(a: Answer, theta: int) {
    exists t2, t3 :: ServerReply(a.reply, a.t1, t2, t3) && InEraWindow(t2) && InEraWindow(t3) && a.t1 + theta <= t2 <= t3 <= a.t4 + theta
  }

  lemma {:induction false} AcceptedFromServer(a: Answer, theta: int)
    requires FromServer(a, theta) && Query(a).Some?
    ensures CorrectReading(a, theta, 1)
  {
    var t2, t3 :| ServerReply(a.reply, a.t1, t2, t3) && InEraWindow(t2) && InEraWindow(t3) && a.t1 + theta <= t2 <= t3 <= a.t4 + theta;
    RefusedIsNotAccepted(a);
    ReadBackIs(t2);
    ReadBackIs(t3);
    hide ParseReply, RequestPacket, ServerReply, InEraWindow, Query, ReadBack, FromServer;
    ServerReplyParsed(a.reply, a.t1, t2, t3);
  }

  lemma {:induction false} RefusedIsNotAccepted(a: Answer)
    ensures Query(a).Some? ==> ParseReply(a.reply, RequestPacket(a.t1)).Parsed?
  {
    hide ParseReply, RequestPacket;
  }

  /** How many of the accepted answers come from such servers. */
  ghost function FromServers(answers: seq<Option<Answer>>, theta: int): nat {
    if answers == [] then 0
    else
      var a := answers[|answers| - 1];
      FromServers(answers[..|answers| - 1], theta) + if a.Some? && Query(a.value).Some? && FromServer(a.value, theta) then 1 else 0
  }

  lemma {:induction false} FromServersCorrect(answers: seq<Option<Answer>>, theta: int)
    ensures FromServers(answers, theta) <= CorrectAccepted(answers, theta, 1)
  {
    hide Query, CorrectReading, FromServer;
    if answers != [] {
      FromServersCorrect(answers[..|answers| - 1], theta);
      var a := answers[|answers| - 1];
      if a.Some? && Query(a.value).Some? && FromServer(a.value, theta) {
        AcceptedFromServer(a.value, theta);
      }
    }
  }

  /**
    Main result, end to end: if more than half of the accepted answers are replies of synchronised servers whose clocks
    are `theta` ahead, whatever their delays and whatever the others answer, the offset measured from the bytes received
    is within 1500 ms of `theta`, or 1501 below it.
  */
  lemma {:induction false} MeasuredFromServers(answers: seq<Option<Answer>>, theta: int)
    requires 2 * FromServers(answers, theta) > Accepted(answers)
    ensures Measured(answers).Some? && theta - 1501 <= Measured(answers).value <= theta + 1500
  {
    hide Measured, OffsetsOf, FromServers, CorrectAccepted;
    FromServersCorrect(answers, theta);
    ClockErrorBound(answers, theta, 1);
  }

  // ---------------------------------------------------------------- the numbers on the wire

  /** Bytes are weighed from the first to the last. */
  lemma {:induction false} WireOrder(b: seq<Byte>)
    requires |b| == 4
    ensures FromBigEndian(b) == (b[0] as int) * 16_777_216 + (b[1] as int) * 65_536 + (b[2] as int) * 256 + b[3] as int
  {}

  /** 1970 is 83 AA 7E 80 hexadecimal, and half a second later the fraction starts with 80. */
  lemma {:induction false} KnownTimestamps()
    ensures ToNtp(0) == [0x83, 0xAA, 0x7E, 0x80, 0, 0, 0, 0] && ToNtp(500) == [0x83, 0xAA, 0x7E, 0x80, 0x80, 0, 0, 0]
    ensures FromNtp(ToNtp(0)) == 0 && FromNtp(ToNtp(500)) == 500
  {
    NtpRoundTrip(0);
    NtpRoundTrip(500);
    hide FromNtp;
    assert BigEndian(2_208_988_800) == [0x83, 0xAA, 0x7E, 0x80];
    assert BigEndian(0) == [0, 0, 0, 0] && BigEndian(2_147_483_648) == [0x80, 0, 0, 0];
  }

  /** A request of version 4 in client mode, with no leap indicator and nothing else set before the time of sending. */
  lemma {:induction false} RequestIs(t1: int)
    ensures var p := RequestPacket(t1);
            && p[0] % 8 == 3 && p[0] / 8 % 8 == 4 && p[0] / 64 == 0
            && (forall i :: 1 <= i < 40 ==> p[i] == 0)
            && FromBigEndian(p[40..44]) == (t1 / 1000 + 2_208_988_800) % 4_294_967_296
  {
    hide ToNtp, FromBigEndian;
    WireParts(t1);
    assert RequestPacket(t1)[40..44] == ToNtp(t1)[..4];
  }

  lemma {:induction false} OffsetExact(t1: int, t2: int, t3: int, t4: int)
    ensures var sum, offset := (t2 - t1) + (t3 - t4), OffsetMs(t1, t2, t3, t4);
            && (sum >= 0 ==> 0 <= 2 * offset <= sum <= 2 * offset + 1)
            && (sum <= 0 ==> 2 * offset - 1 <= sum <= 2 * offset <= 0)
  {}

  /**
    The answer of a synchronised server is accepted exactly when the round trip, less the server's own time, is between
    0 and 3000 ms, and its offset is half the sum of the two differences, cut off toward zero.
  */
  lemma {:induction false} AcceptedExactly(a: Answer, t2: int, t3: int)
    requires ServerReply(a.reply, a.t1, t2, t3) && InEraWindow(t2) && InEraWindow(t3) && t3 != ERA_1_START
    ensures var received, transmitted := if t2 % 125 == 0 then t2 else t2 - 1, if t3 % 125 == 0 then t3 else t3 - 1;
            var sum := (received - a.t1) + (transmitted - a.t4);
            && (Query(a).Some? <==> 0 <= (a.t4 - a.t1) - (transmitted - received) <= 3000)
            && (Query(a).Some? && sum >= 0 ==> 0 <= 2 * Query(a).value <= sum <= 2 * Query(a).value + 1)
            && (Query(a).Some? && sum <= 0 ==> 2 * Query(a).value - 1 <= sum <= 2 * Query(a).value <= 0)
  {
    hide ServerReply, InEraWindow, ParseReply, RequestPacket;
    ServerReplyParsed(a.reply, a.t1, t2, t3);
    OffsetExact(a.t1, ReadBack(t2), ReadBack(t3), a.t4);
  }

  /** An answer that is short, not from a server, not synchronised, of no usable stratum, not for this request or unstamped is not accepted. */
  lemma {:induction false} OthersNotAccepted(a: Answer)
    requires |a.reply| < 48 || a.reply[0] % 8 != 4 || a.reply[0] / 64 == 3 || a.reply[1] == 0 || a.reply[1] > 15
          || a.reply[24..32] != ToNtp(a.t1) || forall i :: 40 <= i < 48 ==> a.reply[i] == 0
    ensures Query(a).None?
  {
    hide ToNtp, FromNtp;
    assert RequestPacket(a.t1)[40..48] == ToNtp(a.t1);
    if |a.reply| >= 48 && forall i :: 40 <= i < 48 ==> a.reply[i] == 0 {
      assert a.reply[40..48] == Zeros(8);
    }
  }
}
