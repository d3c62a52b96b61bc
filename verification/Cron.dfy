/** Five-field schedules: matching one field against a value, and searching minute by minute for
    the next time all fields match (scheduler/engine.go). */
module Cron {
  import opened Wrappers
  import opened Text
  import opened Numerals

  // ----- one part of a field

  datatype Part =
    | StepPart(start: int, end: Option<int>, step: int)
    | Ignored
    | RangePart(first: int, last: int)
    | Literal(number: int)

  function StepBounds(range: string, step: int): Part {
    if range == "*" then StepPart(0, None, step)
    else if Contains(range, '-') then StepPart(Atoi(SplitHead(range, '-')), Some(Atoi(SplitTail(range, '-'))), step)
    else StepPart(Atoi(range), None, step)
  }

  function ParsePart(text: string): Part {
    ParseTrimmed(Trim(text))
  }

  function ParseTrimmed(part: string): Part {
    if Contains(part, '/') then
      var step := SplitTail(part, '/');
      if !AtoiOk(step) || Atoi(step) == 0 then Ignored else StepBounds(SplitHead(part, '/'), Atoi(step))
    else if Contains(part, '-') then RangePart(Atoi(SplitHead(part, '-')), Atoi(SplitTail(part, '-')))
    else if AtoiOk(part) then Literal(Atoi(part))
    else Ignored
  }

  /** What a part is meant to match: a step part matches every step-th value from its start to its
      end, 59 when it names none. */
  predicate PartMatches(p: Part, value: int) {
    match p
    case StepPart(start, end, step) =>
      start <= value && value <= (if end.Some? then end.value else 59) && step > 0 && (value - start) % step == 0
    case Ignored => false
    case RangePart(first, last) => first <= value <= last
    case Literal(number) => number == value
  }

  // ----- a whole field

  function Parts(pattern: string): (r: seq<Part>)
    ensures |r| == |Split(pattern, ',')| && forall i :: 0 <= i < |r| ==> r[i] == ParsePart(Split(pattern, ',')[i])
  {
    seq(|Split(pattern, ',')|, i requires 0 <= i < |Split(pattern, ',')| => ParsePart(Split(pattern, ',')[i]))
  }

  /** The step is positive, and adding it to the start or the end does not overflow. */
  predicate Positive(p: Part)
    requires p.StepPart?
  {
    p.step > 0 && (if p.end.Some? then p.end.value else 59) + p.step <= INT64_MAX && p.start + p.step <= INT64_MAX
  }

  ghost predicate PositiveSteps(pattern: string) {
    forall p :: p in Parts(pattern) && p.StepPart? ==> Positive(p)
  }

  datatype Verdict = Verdict(hit: bool, step: bool)

  function VerdictOf(p: Part, value: int): Verdict {
    Verdict(PartMatches(p, value), p.StepPart?)
  }

  function Verdicts(parts: seq<Part>, value: int): (r: seq<Verdict>)
    ensures |r| == |parts| && forall i :: 0 <= i < |r| ==> r[i] == VerdictOf(parts[i], value)
  {
    seq(|parts|, i requires 0 <= i < |parts| => VerdictOf(parts[i], value))
  }

  /** A part decides for the whole list: a step part that does not match ends the search. */
  ghost predicate DecidedBy(vs: seq<Verdict>, i: int) {
    0 <= i < |vs| && vs[i].hit && forall j :: 0 <= j < i ==> !vs[j].step
  }

  ghost predicate Decided(vs: seq<Verdict>) {
    exists i :: DecidedBy(vs, i)
  }

  ghost predicate FieldMatches(pattern: string, value: int) {
    pattern == "*" || Decided(Verdicts(Parts(pattern), value))
  }

  function InferMax(pattern: string, value: int): int {
    if value <= 6 && (pattern == "*" || Contains(pattern, '0')) then 6
    else if value > 31 then 59
    else if value > 23 then 31
    else if value > 12 then 23
    else if value > 6 then 12
    else 59
  }

  /** The guessed bound never cuts off the value it is guessed for. */
  lemma GuessIsHarmless(pattern: string, value: int)
    requires 0 <= value <= 59
    ensures value <= InferMax(pattern, value) <= 59
  {
  }

  lemma AtLeastOne(k: int, step: int)
    requires k >= 1 && step > 0
    ensures k * step >= step
  {
  }

  lemma OneStepApart(k: int, q: int, step: int)
    requires k > q && step > 0
    ensures k * step >= q * step + step
  {
    AtLeastOne(k - q, step);
    assert (k - q) * step == k * step - q * step;
  }

  lemma MultipleModulo(k: int, step: int)
    requires step > 0
    ensures (k * step) % step == 0
  {
    var n := k * step;
    var q, r := n / step, n % step;
    assert n == step * q + r;
    if k > q {
      OneStepApart(k, q, step);
    } else if k < q {
      OneStepApart(q, k, step);
    }
  }

  lemma StepsMonotone(step: int, k: int, q: int)
    requires step > 0 && k <= q
    ensures k * step <= q * step
  {
  }

  /** The loop over a step range: start, start + step, and so on up to the end. */
  method StepReaches(start: int, end: int, step: int, value: int) returns (hit: bool)
    requires step > 0 && INT64_MIN <= start && start + step <= INT64_MAX && end + step <= INT64_MAX
    ensures hit <==> start <= value <= end && (value - start) % step == 0
  {
    var v := start;
    ghost var k := 0;
    ghost var due := start <= value <= end && (value - start) % step == 0;
    ghost var q := (value - start) / step;
    assert due ==> value == start + q * step;
    assert due ==> q >= 0 by {
      if q < 0 { StepsMonotone(step, q, -1); }
    }
    while v <= end
      invariant v == start + k * step && k >= 0 && INT64_MIN <= v <= INT64_MAX
      invariant due ==> k <= q
      decreases end - v
    {
      if v == value {
        MultipleModulo(k, step);
        AtLeastZero(k, step);
        return true;
      }
      v := v + step;
      k := k + 1;
      assert k * step == (k - 1) * step + step;
      AtLeastZero(k, step);
    }
    if due {
      StepsMonotone(step, k, q);
    }
    return false;
  }

  lemma AtLeastZero(k: int, step: int)
    requires k >= 0 && step > 0
    ensures k * step >= 0
  {
  }

  /** The live step part that a text with a slash stands for, if any. */
  method MatchStep(pattern: string, part: string, value: int, ghost parsed: Part) returns (live: bool, hit: bool)
    requires 0 <= value <= 59 && Contains(part, '/') && parsed == ParseTrimmed(part)
    requires parsed.StepPart? ==> Positive(parsed)
    ensures live == parsed.StepPart? && (live ==> hit == PartMatches(parsed, value)) && (!live ==> parsed.Ignored?)
  {
    hide Find, Trim, IsNumeral, AtoiOk, Split, Unbounded;
    var step := SplitTail(part, '/');
    if !AtoiOk(step) || Atoi(step) == 0 {
      return false, false;
    }
    var range := SplitHead(part, '/');
    var rangeStart, rangeEnd := 0, 59;
    if range != "*" {
      if Contains(range, '-') {
        rangeStart, rangeEnd := Atoi(SplitHead(range, '-')), Atoi(SplitTail(range, '-'));
      } else {
        rangeStart := Atoi(range);
      }
    }
    assert parsed == StepBounds(range, Atoi(step));
    if rangeEnd == 59 {
      GuessIsHarmless(pattern, value);
      rangeEnd := InferMax(pattern, value);
    }
    hit := StepReaches(rangeStart, rangeEnd, Atoi(step), value);
    live := true;
  }

  /** A range or a literal. */
  method MatchPlain(part: string, value: int, ghost parsed: Part) returns (hit: bool)
    requires !Contains(part, '/') && parsed == ParseTrimmed(part)
    ensures !parsed.StepPart? && hit == PartMatches(parsed, value)
  {
    if Contains(part, '-') {
      var start, end := Atoi(SplitHead(part, '-')), Atoi(SplitTail(part, '-'));
      return value >= start && value <= end;
    }
    return AtoiOk(part) && Atoi(part) == value;
  }

  /** One part: whether it decides, being a live step or a match, and whether it matches. */
  method MatchPart(pattern: string, text: string, value: int, ghost parsed: Part) returns (decides: bool, hit: bool)
    requires 0 <= value <= 59 && parsed == ParsePart(text) && (parsed.StepPart? ==> Positive(parsed))
    ensures hit == PartMatches(parsed, value) && decides == (hit || parsed.StepPart?)
  {
    hide Find, IsNumeral, AtoiOk, Split;
    var part := Trim(text);
    if Contains(part, '/') {
      decides, hit := MatchStep(pattern, part, value, parsed);
      hit := decides && hit;
      return;
    }
    hit := MatchPlain(part, value, parsed);
    decides := hit;
  }

  ghost predicate Agreed(texts: seq<string>, value: int, vs: seq<Verdict>, i: int)
    requires 0 <= i < |texts| == |vs|
  {
    vs[i] == VerdictOf(ParsePart(texts[i]), value) && (vs[i].step ==> Positive(ParsePart(texts[i])))
  }

  /** The first part that decides, decides as it matches. */
  lemma DecidedAtFirst(vs: seq<Verdict>, i: nat)
    requires i < |vs| && (vs[i].hit || vs[i].step) && forall j :: 0 <= j < i ==> !vs[j].step && !vs[j].hit
    ensures Decided(vs) <==> vs[i].hit
  {
    if vs[i].hit {
      assert DecidedBy(vs, i);
    }
  }

  method MatchList(pattern: string, texts: seq<string>, value: int, ghost vs: seq<Verdict>) returns (matches: bool)
    requires 0 <= value <= 59 && |texts| == |vs| && forall i :: 0 <= i < |texts| ==> Agreed(texts, value, vs, i)
    ensures matches <==> Decided(vs)
  {
    hide ParsePart, PartMatches, Positive;
    for i := 0 to |texts|
      invariant forall j :: 0 <= j < i ==> !vs[j].step && !vs[j].hit
    {
      assert Agreed(texts, value, vs, i);
      var decides, hit := MatchPart(pattern, texts[i], value, ParsePart(texts[i]));
      if decides {
        DecidedAtFirst(vs, i);
        return hit;
      }
      assert !vs[i].hit && !vs[i].step;
    }
    return false;
  }

  method MatchField(pattern: string, value: int) returns (matches: bool)
    requires 0 <= value <= 59 && PositiveSteps(pattern)
    ensures matches <==> FieldMatches(pattern, value)
  {
    if pattern == "*" {
      return true;
    }
    var texts := Split(pattern, ',');
    ghost var vs := Verdicts(Parts(pattern), value);
    forall i | 0 <= i < |texts|
      ensures Agreed(texts, value, vs, i)
    {
      assert Parts(pattern)[i] in Parts(pattern);
    }
    matches := MatchList(pattern, texts, value, vs);
  }

  // ----- when the list is the union of its parts

  ghost predicate UnionMatches(pattern: string, value: int) {
    pattern == "*" || SomePart(Parts(pattern), value)
  }

  lemma UnionIsSomeHit(parts: seq<Part>, value: int)
    ensures (exists p :: p in parts && PartMatches(p, value)) <==>
            exists i :: 0 <= i < |parts| && Verdicts(parts, value)[i].hit
  {
    if p :| p in parts && PartMatches(p, value) {
      var i :| 0 <= i < |parts| && parts[i] == p;
      assert Verdicts(parts, value)[i].hit;
    }
    if i :| 0 <= i < |parts| && Verdicts(parts, value)[i].hit {
      assert parts[i] in parts && PartMatches(parts[i], value);
    }
  }

  /** The list matches exactly the union of its parts, for every value, if its only step part is last. */
  lemma LastStepIsUnion(pattern: string, value: int)
    requires forall i :: 0 <= i < |Parts(pattern)| - 1 ==> !Parts(pattern)[i].StepPart?
    ensures FieldMatches(pattern, value) <==> UnionMatches(pattern, value)
  {
    var parts := Parts(pattern);
    var vs := Verdicts(parts, value);
    UnionIsSomeHit(parts, value);
    if i :| 0 <= i < |vs| && vs[i].hit {
      assert DecidedBy(vs, i);
    }
  }

  ghost predicate SomePart(parts: seq<Part>, value: int) {
    exists p :: p in parts && PartMatches(p, value)
  }

  /** The number of parts up to the first step part, itself included; all of them without one. */
  function Reached(parts: seq<Part>): (n: nat)
    ensures n <= |parts|
  {
    if parts == [] then 0 else if parts[0].StepPart? then 1 else 1 + Reached(parts[1..])
  }

  lemma {:induction false} ReachedMeans(parts: seq<Part>, i: nat)
    requires i < |parts|
    ensures i < Reached(parts) <==> forall j :: 0 <= j < i ==> !parts[j].StepPart?
  {
    if i > 0 {
      ReachedMeans(parts[1..], i - 1);
      assert forall j :: 0 < j < i ==> parts[j] == parts[1..][j - 1];
      assert forall j :: 0 <= j < i - 1 ==> parts[1..][j] == parts[j + 1];
    }
  }

  /** A list matches exactly the union of its parts through the first step part. */
  lemma {:induction false} ListReadsFirstParts(pattern: string, value: int)
    requires pattern != "*"
    ensures FieldMatches(pattern, value) <==> SomePart(Parts(pattern)[..Reached(Parts(pattern))], value)
  {
    hide PartMatches, Split, SomePart, Decided;
    DecidedByFirstParts(Parts(pattern), value);
  }

  lemma DecidedByFirstParts(parts: seq<Part>, value: int)
    ensures Decided(Verdicts(parts, value)) <==> SomePart(parts[..Reached(parts)], value)
  {
    hide PartMatches;
    var n, vs := Reached(parts), Verdicts(parts, value);
    if Decided(vs) {
      var i :| DecidedBy(vs, i);
      ReachedMeans(parts, i);
      assert forall j :: 0 <= j < i ==> vs[j].step == parts[j].StepPart?;
      assert parts[..n][i] == parts[i];
    }
    if SomePart(parts[..n], value) {
      var p :| p in parts[..n] && PartMatches(p, value);
      var i :| 0 <= i < n && parts[..n][i] == p;
      ReachedMeans(parts, i);
      assert forall j :: 0 <= j < i ==> vs[j].step == parts[j].StepPart?;
      assert DecidedBy(vs, i);
    }
  }

  ghost predicate IsUnionAt(pattern: string, value: int) {
    FieldMatches(pattern, value) <==> UnionMatches(pattern, value)
  }

  /** What the parts from position n on match, the parts before it match. */
  ghost predicate CoveredAt(parts: seq<Part>, n: nat, value: int)
    requires n <= |parts|
  {
    SomePart(parts[n..], value) ==> SomePart(parts[..n], value)
  }

  /** A list matches the union of its parts for every value if and only if what its parts after
      the first step part match, the parts through it match already. */
  lemma {:induction false} ListIsUnionIff(pattern: string, parts: seq<Part>, n: nat)
    requires pattern != "*" && parts == Parts(pattern) && n == Reached(parts)
    ensures (forall value :: 0 <= value <= 59 ==> IsUnionAt(pattern, value)) <==>
            (forall value :: 0 <= value <= 59 ==> CoveredAt(parts, n, value))
  {
    hide IsUnionAt, CoveredAt;
    forall value | 0 <= value <= 59
      ensures IsUnionAt(pattern, value) <==> CoveredAt(parts, n, value)
    {
      UnionIsCovered(pattern, parts, n, value);
    }
  }

  lemma UnionIsCovered(pattern: string, parts: seq<Part>, n: nat, value: int)
    requires pattern != "*" && parts == Parts(pattern) && n == Reached(parts)
    ensures IsUnionAt(pattern, value) <==> CoveredAt(parts, n, value)
  {
    hide SomePart, FieldMatches, UnionMatches, Parts;
    ListReadsFirstParts(pattern, value);
    UnionSplits(pattern, n, value);
  }

  lemma UnionSplits(pattern: string, n: nat, value: int)
    requires pattern != "*" && n <= |Parts(pattern)|
    ensures UnionMatches(pattern, value) <==>
            SomePart(Parts(pattern)[..n], value) || SomePart(Parts(pattern)[n..], value)
  {
    hide SomePart, Parts;
    SomePartSplits(Parts(pattern), n, value);
  }

  lemma SomePartSplits(parts: seq<Part>, n: nat, value: int)
    requires n <= |parts|
    ensures SomePart(parts, value) <==> SomePart(parts[..n], value) || SomePart(parts[n..], value)
  {
    hide PartMatches;
    assert parts == parts[..n] + parts[n..];
  }

  lemma SplitTwo(a: string, b: string, c: char)
    requires c !in a && c !in b
    ensures Split(a + [c] + b, c) == [a, b]
  {
    var s := a + [c] + b;
    assert s[|a|] == c && Find(s, c) == |a|;
    assert s[..|a|] == a && s[|a| + 1..] == b;
  }

  function Number(digit: char): int {
    digit as int - '0' as int
  }

  lemma OneDigit(digit: char)
    requires IsDigit(digit)
    ensures AtoiOk([digit]) && Atoi([digit]) == Number(digit) && 0 <= Number(digit) <= 9 && Trim([digit]) == [digit]
  {
    var s := [digit];
    assert s[..|s| - 1] == [];
    assert DigitsValue(s[..|s| - 1]) == 0;
    TrimKeeps(s);
  }

  lemma ParseDigit(digit: char)
    requires IsDigit(digit)
    ensures ParsePart([digit]) == Literal(Number(digit))
  {
    hide Trim, AtoiOk, Atoi;
    OneDigit(digit);
  }

  lemma ParseStarStep(digit: char)
    requires IsDigit(digit) && digit != '0'
    ensures ParsePart(['*', '/', digit]) == StepPart(0, None, Number(digit))
  {
    hide Trim, AtoiOk, Atoi;
    var part := ['*', '/', digit];
    TrimKeeps(part);
    OneDigit(digit);
    assert part[1] == '/' && Find(part, '/') == 1;
    assert part[2..] == [digit] && part[..1] == "*";
  }

  // In a field such as "*/7,5" the step part does not match 5 and ends the search before the
  // literal that does.
  lemma StepHidesLiteral(step: char, literal: char)
    requires IsDigit(step) && step != '0' && IsDigit(literal) && Number(literal) % Number(step) != 0
    ensures var pattern := ['*', '/', step] + [','] + [literal];
            !FieldMatches(pattern, Number(literal)) && UnionMatches(pattern, Number(literal))
  {
    hide ParsePart, Split;
    var pattern := ['*', '/', step] + [','] + [literal];
    SplitTwo(['*', '/', step], [literal], ',');
    ParseStarStep(step);
    ParseDigit(literal);
    var parts, value := Parts(pattern), Number(literal);
    assert parts == [StepPart(0, None, Number(step)), Literal(value)];
    assert parts[1] in parts && PartMatches(parts[1], value);
    assert Verdicts(parts, value)[0].step && !Verdicts(parts, value)[0].hit;
    assert |pattern| == 5;
  }

  // ----- the next run

  const MINUTE := 60_000_000_000
  const DAY := 1440 * MINUTE
  const SEARCH_MINUTES := 525600

  datatype Moment = Moment(minute: int, hour: int, day: int, month: int, weekday: int)

  /** The fields of the wall clock at a minute number. */
  type Calendar = int -> Moment

  ghost predicate ValidMoment(m: Moment) {
    0 <= m.minute <= 59 && 0 <= m.hour <= 23 && 1 <= m.day <= 31 && 1 <= m.month <= 12 && 0 <= m.weekday <= 6
  }

  ghost predicate ValidCalendar(cal: Calendar) {
    forall m {:trigger cal(m)} :: ValidMoment(cal(m))
  }

  /** strings.Fields: the maximal runs of non-space characters. */
  function Fields(s: string): seq<string>
    decreases |s|
  {
    var t := TrimLeft(s);
    if t == "" then [] else
      var n := WordLength(t);
      [t[..n]] + Fields(t[n..])
  }

  function WordLength(s: string): (n: nat)
    ensures n <= |s| && (s != "" && !IsSpace(s[0]) ==> n > 0)
  {
    if s == "" || IsSpace(s[0]) then 0 else 1 + WordLength(s[1..])
  }

  /** All five fields match: day of month and day of week are both required. */
  ghost predicate Matches(fields: seq<string>, m: Moment)
    requires |fields| >= 5
  {
    && FieldMatches(fields[0], m.minute) && FieldMatches(fields[1], m.hour) && FieldMatches(fields[2], m.day)
    && FieldMatches(fields[3], m.month) && FieldMatches(fields[4], m.weekday)
  }

  ghost predicate Supported(fields: seq<string>) {
    forall i :: 0 <= i < |fields| && i < 5 ==> PositiveSteps(fields[i])
  }

  /** The first of n numbers from first on that hits. */
  ghost function FirstHit(hit: int -> bool, first: int, n: nat): Option<int>
    decreases n, first
  {
    if n == 0 then None else if hit(first) then Some(first) else FirstHit(hit, first + 1, n - 1)
  }

  lemma {:induction false} FirstHitIsLeast(hit: int -> bool, first: int, n: nat)
    ensures match FirstHit(hit, first, n)
            case Some(m) => first <= m < first + n && hit(m) && forall k :: first <= k < m ==> !hit(k)
            case None => forall k :: first <= k < first + n ==> !hit(k)
    decreases n
  {
    if n > 0 && !hit(first) {
      FirstHitIsLeast(hit, first + 1, n - 1);
    }
  }

  ghost function MinuteHits(fields: seq<string>, cal: Calendar): int -> bool {
    k => |fields| >= 5 && Matches(fields, cal(k))
  }

  ghost function NextRun(expr: string, after: int, cal: Calendar): int {
    var fields := Fields(expr);
    if |fields| < 5 then after + DAY
    else
      match FirstHit(MinuteHits(fields, cal), after / MINUTE + 1, SEARCH_MINUTES)
      case Some(minute) => minute * MINUTE
      case None => after + DAY
  }

  method AllMatch(fields: seq<string>, m: Moment) returns (all: bool)
    requires |fields| >= 5 && Supported(fields) && ValidMoment(m)
    ensures all <==> Matches(fields, m)
  {
    all := MatchField(fields[0], m.minute);
    if all { all := MatchField(fields[1], m.hour); }
    if all { all := MatchField(fields[2], m.day); }
    if all { all := MatchField(fields[3], m.month); }
    if all { all := MatchField(fields[4], m.weekday); }
  }

  /** The minute-by-minute search. */
  method Search(fields: seq<string>, cal: Calendar, first: int, limit: nat) returns (found: Option<int>)
    requires |fields| >= 5 && ValidCalendar(cal) && Supported(fields)
    ensures found == FirstHit(MinuteHits(fields, cal), first, limit)
  {
    var candidate := first;
    ghost var hit := MinuteHits(fields, cal);
    for i := 0 to limit
      invariant candidate == first + i
      invariant FirstHit(hit, first, limit) == FirstHit(hit, candidate, limit - i)
    {
      assert ValidMoment(cal(candidate));
      var all := AllMatch(fields, cal(candidate));
      if all {
        return Some(candidate);
      }
      candidate := candidate + 1;
    }
    return None;
  }

  method NextCronTime(expr: string, after: int, cal: Calendar) returns (next: int)
    requires ValidCalendar(cal) && Supported(Fields(expr))
    ensures next == NextRun(expr, after, cal)
  {
    if expr == "" {
      return after + DAY;
    }
    var fields := Fields(expr);
    if |fields| < 5 {
      return after + DAY;
    }
    var found := Search(fields, cal, after / MINUTE + 1, SEARCH_MINUTES);
    match found
    case Some(minute) => return minute * MINUTE;
    case None => return after + DAY;
  }

  /** The next run is always after its argument. */
  lemma NextRunIsLater(expr: string, after: int, cal: Calendar)
    ensures NextRun(expr, after, cal) > after
  {
    var fields := Fields(expr);
    if |fields| >= 5 {
      FirstHitIsLeast(MinuteHits(fields, cal), after / MINUTE + 1, SEARCH_MINUTES);
    }
  }

  ghost predicate SomeMatch(fields: seq<string>, after: int, cal: Calendar)
    requires |fields| >= 5
  {
    exists k :: WithinSearch(after, k) && Matches(fields, cal(k))
  }

  /** A minute that starts after the argument, within the search. */
  predicate WithinSearch(after: int, k: int) {
    after < k * MINUTE && k <= after / MINUTE + SEARCH_MINUTES
  }

  lemma SearchIsLeast(hit: int -> bool, after: int)
    ensures match FirstHit(hit, after / MINUTE + 1, SEARCH_MINUTES)
            case Some(m) => WithinSearch(after, m) && hit(m) && forall k :: after < k * MINUTE && k < m ==> !hit(k)
            case None => forall k :: WithinSearch(after, k) ==> !hit(k)
  {
    var first := after / MINUTE + 1;
    FirstHitIsLeast(hit, first, SEARCH_MINUTES);
    assert forall k :: after < k * MINUTE <==> first <= k;
  }

  /** With five fields the next run is the start of the least later minute m that matches them
      all; it is the argument plus a day exactly when no minute of the search does, or a field is
      missing. */
  lemma {:induction false} NextRunIsLeast(expr: string, after: int, cal: Calendar) returns (m: int)
    ensures var fields := Fields(expr);
            if |fields| >= 5 && SomeMatch(fields, after, cal)
            then NextRun(expr, after, cal) == m * MINUTE && WithinSearch(after, m) && Matches(fields, cal(m)) &&
                 forall k :: after < k * MINUTE && k < m ==> !Matches(fields, cal(k))
            else NextRun(expr, after, cal) == after + DAY
  {
    var fields := Fields(expr);
    m := 0;
    if |fields| >= 5 {
      m := LeastMatch(fields, after, cal);
    }
  }

  lemma LeastMatch(fields: seq<string>, after: int, cal: Calendar) returns (m: int)
    requires |fields| >= 5
    ensures var found := FirstHit(MinuteHits(fields, cal), after / MINUTE + 1, SEARCH_MINUTES);
            if SomeMatch(fields, after, cal)
            then found == Some(m) && WithinSearch(after, m) && Matches(fields, cal(m)) &&
                 forall k :: after < k * MINUTE && k < m ==> !Matches(fields, cal(k))
            else found == None
  {
    var hit := MinuteHits(fields, cal);
    SearchIsLeast(hit, after);
    var found := FirstHit(hit, after / MINUTE + 1, SEARCH_MINUTES);
    m := if found.Some? then found.value else 0;
    if found.Some? {
      assert hit(m);
      forall k | after < k * MINUTE && k < m
        ensures !Matches(fields, cal(k))
      {
        assert !hit(k);
      }
    } else {
      forall k | WithinSearch(after, k)
        ensures !Matches(fields, cal(k))
      {
        assert !hit(k);
      }
    }
  }
}
