/** What a field means as it is written: numbers, ranges, steps and lists (scheduler/engine.go). */
module CronText {
  import opened Wrappers
  import opened Text
  import opened Numerals
  import opened Cron

  // ----- plain text

  ghost predicate Plain(s: string) {
    s != "" && forall i :: 0 <= i < |s| ==> '0' <= s[i] <= '9' || s[i] == '-' || s[i] == '*' || s[i] == '/'
  }

  lemma PlainIsTrimmed(s: string)
    requires Plain(s)
    ensures Trim(s) == s && ',' !in s
  {
    hide Trim;
    TrimKeeps(s);
  }

  lemma ItoaHasOnlyDigits(n: nat)
    ensures Plain(Itoa(n)) && '-' !in Itoa(n) && '/' !in Itoa(n) && '*' !in Itoa(n)
  {
  }

  lemma JoinedIsPlain(a: string, c: char, b: string)
    requires Plain(a) && Plain(b) && (c == '-' || c == '/')
    ensures Plain(a + [c] + b)
  {
  }

  lemma SplitsAt(a: string, c: char, b: string)
    requires c !in a
    ensures var s := a + [c] + b; Contains(s, c) && SplitHead(s, c) == a && SplitTail(s, c) == b
  {
    var s := a + [c] + b;
    assert s[|a|] == c && Find(s, c) == |a|;
    assert s[..|a|] == a && s[|a| + 1..] == b;
  }

  // ----- the parts of a field

  function RangeText(a: nat, b: nat): string {
    Itoa(a) + "-" + Itoa(b)
  }

  lemma RangeTextSplits(a: nat, b: nat)
    ensures var s := RangeText(a, b);
            && Plain(s) && '/' !in s && '*' !in s && Contains(s, '-')
            && SplitHead(s, '-') == Itoa(a) && SplitTail(s, '-') == Itoa(b)
  {
    ItoaHasOnlyDigits(a);
    ItoaHasOnlyDigits(b);
    assert "-" == ['-'];
    JoinedIsPlain(Itoa(a), '-', Itoa(b));
    SplitsAt(Itoa(a), '-', Itoa(b));
  }

  lemma RangeParses(a: nat, b: nat)
    ensures ParsePart(RangeText(a, b)) == RangePart(Capped(a), Capped(b))
  {
    hide Trim, Atoi, AtoiOk, SplitHead, SplitTail, RangeText;
    RangeTextSplits(a, b);
    PlainIsTrimmed(RangeText(a, b));
    ItoaReads(a);
    ItoaReads(b);
  }

  lemma NumberParses(a: nat)
    ensures ParsePart(Itoa(a)) == if a <= INT64_MAX then Literal(a) else Ignored
  {
    hide Trim, Atoi, AtoiOk;
    ItoaHasOnlyDigits(a);
    PlainIsTrimmed(Itoa(a));
    ItoaReads(a);
  }

  lemma StepParses(range: string, s: nat)
    requires Plain(range) && '/' !in range
    ensures Plain(range + "/" + Itoa(s))
    ensures ParsePart(range + "/" + Itoa(s)) == if 1 <= s <= INT64_MAX then StepBounds(range, s) else Ignored
  {
    hide Trim, Atoi, AtoiOk, StepBounds, SplitHead, SplitTail;
    ItoaHasOnlyDigits(s);
    assert "/" == ['/'];
    JoinedIsPlain(range, '/', Itoa(s));
    SplitsAt(range, '/', Itoa(s));
    PlainIsTrimmed(range + "/" + Itoa(s));
    ItoaReads(s);
  }

  lemma Unsplit(text: string, c: char)
    requires c !in text
    ensures Split(text, c) == [text]
  {
    assert Find(text, c) == |text|;
  }

  lemma SoleVerdict(v: Verdict)
    ensures Decided([v]) <==> v.hit
  {
    assert v.hit ==> DecidedBy([v], 0);
  }

  /** A field without a comma is its one part. */
  lemma OnePart(text: string, value: int)
    requires Plain(text) && text != "*"
    ensures FieldMatches(text, value) <==> PartMatches(ParsePart(text), value)
  {
    hide ParsePart, PartMatches, Split, Trim, Decided;
    PlainIsTrimmed(text);
    Unsplit(text, ',');
    var v := VerdictOf(ParsePart(text), value);
    assert Verdicts(Parts(text), value) == [v];
    SoleVerdict(v);
  }

  // ----- what each part matches

  /** a matches a. */
  lemma NumberMatches(a: nat, value: int)
    requires 0 <= value <= 59
    ensures FieldMatches(Itoa(a), value) <==> value == a
  {
    hide FieldMatches, ParsePart;
    NumberParses(a);
    ItoaHasOnlyDigits(a);
    assert Itoa(a)[0] in Itoa(a);
    OnePart(Itoa(a), value);
  }

  /** a-b matches the values from a to b. */
  lemma RangeMatches(a: nat, b: nat, value: int)
    requires 0 <= value <= 59
    ensures FieldMatches(Itoa(a) + "-" + Itoa(b), value) <==> a <= value <= b
  {
    hide FieldMatches, ParsePart;
    RangeTextSplits(a, b);
    RangeParses(a, b);
    assert RangeText(a, b)[0] in RangeText(a, b);
    OnePart(RangeText(a, b), value);
  }

  lemma StepField(range: string, s: nat, value: int)
    requires Plain(range) && '/' !in range
    ensures FieldMatches(range + "/" + Itoa(s), value) <==>
            1 <= s <= INT64_MAX && PartMatches(StepBounds(range, s), value)
  {
    hide FieldMatches, ParsePart, StepBounds;
    StepParses(range, s);
    assert (range + "/" + Itoa(s))[|range|] == '/';
    OnePart(range + "/" + Itoa(s), value);
  }

  // A step over all values, "*/s", matches the multiples of s. A step no 64-bit integer holds is
  // ignored, like zero.
  lemma StarStepMatches(s: nat, value: int)
    requires 0 <= value <= 59
    ensures FieldMatches("*" + "/" + Itoa(s), value) <==> 1 <= s <= INT64_MAX && value % s == 0
  {
    hide FieldMatches;
    assert Plain("*") && '/' !in "*";
    StepField("*", s, value);
  }

  /** A star alone matches every value. */
  lemma StarMatches(value: int)
    ensures FieldMatches("*", value)
  {
  }

  /** a/s matches every s-th value from a on. */
  lemma FromStepMatches(a: nat, s: nat, value: int)
    requires 0 <= value <= 59
    ensures FieldMatches(Itoa(a) + "/" + Itoa(s), value) <==>
            1 <= s <= INT64_MAX && a <= value && (value - a) % s == 0
  {
    hide FieldMatches, Atoi;
    ItoaHasOnlyDigits(a);
    assert Itoa(a)[0] in Itoa(a);
    StepField(Itoa(a), s, value);
    ItoaReads(a);
  }

  /** a-b/s matches every s-th value from a to b. */
  lemma RangeStepMatches(a: nat, b: nat, s: nat, value: int)
    requires 0 <= value <= 59
    ensures FieldMatches(Itoa(a) + "-" + Itoa(b) + "/" + Itoa(s), value) <==>
            1 <= s <= INT64_MAX && a <= value <= b && (value - a) % s == 0
  {
    hide FieldMatches, Atoi, SplitHead, SplitTail;
    RangeTextSplits(a, b);
    assert RangeText(a, b)[0] in RangeText(a, b);
    StepField(RangeText(a, b), s, value);
    ItoaReads(a);
    ItoaReads(b);
  }

  // ----- lists of numbers and ranges

  datatype Item = One(a: nat) | Span(a: nat, b: nat)

  function ItemText(item: Item): string {
    match item
    case One(a) => Itoa(a)
    case Span(a, b) => RangeText(a, b)
  }

  function ListText(items: seq<Item>): string
    requires items != []
  {
    if |items| == 1 then ItemText(items[0]) else ItemText(items[0]) + "," + ListText(items[1..])
  }

  predicate ItemHolds(item: Item, value: int) {
    match item
    case One(a) => value == a
    case Span(a, b) => a <= value <= b
  }

  lemma ItemIsPlain(item: Item)
    ensures Plain(ItemText(item)) && '*' !in ItemText(item) && ',' !in ItemText(item)
  {
    hide RangeText;
    match item {
      case One(a) => ItoaHasOnlyDigits(a);
      case Span(a, b) => RangeTextSplits(a, b);
    }
    PlainIsTrimmed(ItemText(item));
  }

  lemma ItemParses(item: Item, value: int)
    requires 0 <= value <= 59
    ensures !ParsePart(ItemText(item)).StepPart?
    ensures PartMatches(ParsePart(ItemText(item)), value) <==> ItemHolds(item, value)
  {
    hide ParsePart, RangeText;
    match item {
      case One(a) => NumberParses(a);
      case Span(a, b) => RangeParses(a, b);
    }
  }

  lemma {:induction false} ListSplits(items: seq<Item>)
    requires items != []
    ensures |Split(ListText(items), ',')| == |items|
    ensures forall i :: 0 <= i < |items| ==> Split(ListText(items), ',')[i] == ItemText(items[i])
  {
    hide ItemText, Plain;
    var head := ItemText(items[0]);
    ItemIsPlain(items[0]);
    if |items| == 1 {
      assert Find(head, ',') == |head|;
    } else {
      var rest := ListText(items[1..]);
      ListSplits(items[1..]);
      var s := head + "," + rest;
      assert s[|head|] == ',' && Find(s, ',') == |head|;
      assert s[..|head|] == head && s[|head| + 1..] == rest;
      assert Split(s, ',') == [head] + Split(rest, ',');
    }
  }

  lemma ListIsNotStar(items: seq<Item>)
    requires items != []
    ensures ListText(items) != "*"
  {
    hide ItemText;
    ItemIsPlain(items[0]);
    assert ListText(items)[0] == ItemText(items[0])[0];
    assert ItemText(items[0])[0] in ItemText(items[0]);
  }

  lemma ListParts(items: seq<Item>, value: int, i: nat)
    requires items != [] && i < |items| && 0 <= value <= 59
    ensures |Parts(ListText(items))| == |items|
    ensures !Parts(ListText(items))[i].StepPart?
    ensures PartMatches(Parts(ListText(items))[i], value) <==> ItemHolds(items[i], value)
  {
    hide ParsePart, PartMatches, ItemHolds, ItemText, Split, ListText;
    ListSplits(items);
    ItemParses(items[i], value);
  }

  /** A comma list of numbers and ranges matches what one of them does. */
  lemma ListMatches(items: seq<Item>, value: int)
    requires items != [] && 0 <= value <= 59
    ensures FieldMatches(ListText(items), value) <==> exists i :: 0 <= i < |items| && ItemHolds(items[i], value)
  {
    hide FieldMatches, PartMatches, ItemHolds, ListText, Parts;
    var parts := Parts(ListText(items));
    ListParts(items, value, 0);
    forall i | 0 <= i < |items|
      ensures !parts[i].StepPart? && (PartMatches(parts[i], value) <==> ItemHolds(items[i], value))
    {
      ListParts(items, value, i);
    }
    ListIsNotStar(items);
    LastStepIsUnion(ListText(items), value);
    if p :| p in parts && PartMatches(p, value) {
      var i :| 0 <= i < |parts| && parts[i] == p;
      assert ItemHolds(items[i], value);
    }
    if i :| 0 <= i < |items| && ItemHolds(items[i], value) {
      assert parts[i] in parts && PartMatches(parts[i], value);
    }
  }

  // ----- an expression of five fields

  ghost predicate Word(w: string) {
    w != "" && forall i :: 0 <= i < |w| ==> !IsSpace(w[i])
  }

  function Spaced(words: seq<string>): string {
    if words == [] then "" else words[0] + (if |words| == 1 then "" else " " + Spaced(words[1..]))
  }

  lemma {:induction false} WordEnds(w: string, rest: string)
    requires (forall i :: 0 <= i < |w| ==> !IsSpace(w[i])) && (rest == "" || IsSpace(rest[0]))
    ensures WordLength(w + rest) == |w|
  {
    if w != "" {
      assert (w + rest)[1..] == w[1..] + rest;
      WordEnds(w[1..], rest);
    } else {
      assert w + rest == rest;
    }
  }

  lemma FirstField(w: string, rest: string)
    requires Word(w) && (rest == "" || IsSpace(rest[0]))
    ensures Fields(w + rest) == [w] + Fields(rest)
  {
    hide IsSpace;
    WordEnds(w, rest);
    var s := w + rest;
    assert !IsSpace(s[0]) && TrimLeft(s) == s;
    assert s[..|w|] == w && s[|w|..] == rest;
  }

  lemma SpaceIsSkipped(rest: string)
    ensures Fields(" " + rest) == Fields(rest)
  {
    assert (" " + rest)[1..] == rest && IsSpace(' ');
    assert TrimLeft(" " + rest) == TrimLeft(rest);
  }

  /** Words separated by blanks are the fields of an expression, in order. */
  lemma {:induction false} FieldsOfWords(words: seq<string>)
    requires forall i :: 0 <= i < |words| ==> Word(words[i])
    ensures Fields(Spaced(words)) == words
  {
    hide IsSpace, Fields;
    if words == [] {
      NoFields();
    } else {
      var rest := if |words| == 1 then "" else " " + Spaced(words[1..]);
      assert IsSpace(' ') by {
        SpaceIsSpace();
      }
      FirstField(words[0], rest);
      FieldsOfWords(words[1..]);
      if |words| == 1 {
        NoFields();
        assert words == [words[0]] + [];
      } else {
        SpaceIsSkipped(Spaced(words[1..]));
        assert words == [words[0]] + words[1..];
      }
    }
  }

  lemma NoFields()
    ensures Fields("") == []
  {
  }

  lemma SpaceIsSpace()
    ensures IsSpace(' ')
  {
  }
}
