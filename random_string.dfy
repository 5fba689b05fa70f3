/**
 * `random_string` and its inner `parse`: a comma-separated character-set
 * description such as "a-z,A-Z,0-9" is expanded into a choice set, from
 * which `length` characters are drawn. Each draw of the random source is
 * given as the index it picks in the choice set.
 */
module RandomFacilities {
  import opened PyRuntime

  /** A Python 2 byte string: every character code is below 256. */
  predicate IsByteString(s: string) {
    forall c :: c in s ==> c as int < 256
  }

  /** `chr` of every code in `range(lo, hi)`, in order. */
  function CodeRange(lo: nat, hi: nat): (r: string)
    requires hi <= 256
    ensures |r| == if lo < hi then hi - lo else 0
    ensures forall k :: 0 <= k < |r| ==> r[k] as int == lo + k
    decreases hi
  {
    if lo >= hi then [] else CodeRange(lo, hi - 1) + [(hi - 1) as char]
  }

  /**
   * What one comma-separated item adds to the choice set: for `x-y` (and
   * anything after a second `-`, which is ignored) the characters from `x` up
   * to but excluding `y`; for an item without `-`, the item itself. `ord`
   * raises TypeError when `x` or `y` is not exactly one character.
   */
  function ItemChars(item: string): Result<string>
    requires IsByteString(item)
  {
    var chars := Split(item, '-');
    if |chars| > 1 then
      if |chars[0]| != 1 || |chars[1]| != 1 then Failure(TypeError)
      else
        SplitPieces(item, '-');
        assert chars[1][0] in chars[1] && chars[1][0] in item;
        Success(CodeRange(chars[0][0] as int, chars[1][0] as int))
    else Success(chars[0])
  }

  predicate AllByteStrings(items: seq<string>) {
    forall k :: 0 <= k < |items| ==> IsByteString(items[k])
  }

  /** The items' characters concatenated in order; the first failing item fails the whole. */
  function ConcatItems(items: seq<string>): Result<string>
    requires AllByteStrings(items)
    decreases |items|
  {
    if items == [] then Success([])
    else
      match ConcatItems(items[..|items| - 1])
      case Failure(e) => Failure(e)
      case Success(acc) =>
        match ItemChars(items[|items| - 1])
        case Failure(e) => Failure(e)
        case Success(cs) => Success(acc + cs)
  }

  lemma SplitKeepsBytes(s: string, sep: char)
    requires IsByteString(s)
    ensures AllByteStrings(Split(s, sep))
  {
    var parts := Split(s, sep);
    SplitPieces(s, sep);
    forall k | 0 <= k < |parts| ensures IsByteString(parts[k]) {
      forall c | c in parts[k] ensures c as int < 256 {
        assert c in s;
      }
    }
  }

  /** The choice set `parse(type)` builds. */
  function ChoiceSet(spec: string): Result<string>
    requires IsByteString(spec)
  {
    SplitKeepsBytes(spec, ',');
    ConcatItems(Split(spec, ','))
  }

  /** Joins two results the way a fail-fast concatenation does. */
  function Combine(a: Result<string>, b: Result<string>): Result<string> {
    match a
    case Failure(e) => Failure(e)
    case Success(x) =>
      match b
      case Failure(e) => Failure(e)
      case Success(y) => Success(x + y)
  }

  lemma {:induction false} ConcatItemsAppend(xs: seq<string>, ys: seq<string>)
    requires AllByteStrings(xs) && AllByteStrings(ys)
    ensures AllByteStrings(xs + ys)
    ensures ConcatItems(xs + ys) == Combine(ConcatItems(xs), ConcatItems(ys))
    decreases |ys|
  {
    forall k | 0 <= k < |xs + ys| ensures IsByteString((xs + ys)[k]) {
      if k >= |xs| {
        assert (xs + ys)[k] == ys[k - |xs|];
      }
    }
    if ys == [] {
      assert xs + ys == xs;
      if ConcatItems(xs).Success? {
        assert ConcatItems(xs).value + [] == ConcatItems(xs).value;
      }
    } else {
      var zs := xs + ys;
      assert zs[..|zs| - 1] == xs + ys[..|ys| - 1];
      assert zs[|zs| - 1] == ys[|ys| - 1];
      var init, last := ys[..|ys| - 1], ys[|ys| - 1];
      ConcatItemsAppend(xs, init);
      var a, b, c := ConcatItems(xs), ConcatItems(init), ItemChars(last);
      if a.Success? && b.Success? && c.Success? {
        assert a.value + b.value + c.value == a.value + (b.value + c.value);
      }
    }
  }

  /** Once a prefix of the items fails, the whole concatenation fails the same way. */
  lemma {:induction false} ConcatItemsFailurePersists(items: seq<string>, i: nat)
    requires AllByteStrings(items) && i <= |items|
    requires ConcatItems(items[..i]).Failure?
    ensures ConcatItems(items) == ConcatItems(items[..i])
    decreases |items| - i
  {
    if i < |items| {
      assert items[..i + 1][..i] == items[..i];
      ConcatItemsFailurePersists(items, i + 1);
    } else {
      assert items[..i] == items;
    }
  }

  /**
   * `parse`: loops over the comma-separated items and, for a range item, over
   * the codes of the range, appending to the choice set as it goes.
   */
  method Parse(spec: string) returns (r: Result<string>)
    requires IsByteString(spec)
    ensures r == ChoiceSet(spec)
  {
    var choiceSet := "";
    var parsed := Split(spec, ',');
    SplitKeepsBytes(spec, ',');
    for i := 0 to |parsed|
      invariant ConcatItems(parsed[..i]) == Success(choiceSet)
    {
      assert parsed[..i + 1][..i] == parsed[..i];
      assert parsed[..i + 1][i] == parsed[i];
      var chars := Split(parsed[i], '-');
      if |chars| > 1 {
        if |chars[0]| != 1 || |chars[1]| != 1 {
          ConcatItemsFailurePersists(parsed, i + 1);
          assert parsed[..|parsed|] == parsed;
          return Failure(TypeError);
        }
        SplitPieces(parsed[i], '-');
        assert chars[0][0] in chars[0] && chars[0][0] in parsed[i];
        assert chars[1][0] in chars[1] && chars[1][0] in parsed[i];
        var lo, hi := chars[0][0] as int, chars[1][0] as int;
        ghost var before := choiceSet;
        var c := lo;
        while c < hi
          invariant lo <= c <= if lo < hi then hi else lo
          invariant choiceSet == before + CodeRange(lo, c)
        {
          choiceSet := choiceSet + [c as char];
          c := c + 1;
        }
        assert CodeRange(lo, c) == CodeRange(lo, hi);
      } else {
        choiceSet := choiceSet + chars[0];
      }
    }
    assert parsed[..|parsed|] == parsed;
    return Success(choiceSet);
  }

  /** The choice set of a comma-joined description is the two choice sets concatenated. */
  lemma ChoiceSetAppend(a: string, b: string)
    requires IsByteString(a) && IsByteString(b)
    ensures IsByteString(a + "," + b)
    ensures ChoiceSet(a + "," + b) == Combine(ChoiceSet(a), ChoiceSet(b))
  {
    SplitAppend(a, b, ',');
    SplitKeepsBytes(a, ',');
    SplitKeepsBytes(b, ',');
    ConcatItemsAppend(Split(a, ','), Split(b, ','));
  }

  /** An item without `-` contributes itself verbatim. */
  lemma PlainItem(item: string)
    requires IsByteString(item) && '-' !in item
    ensures ItemChars(item) == Success(item)
  {
    SplitAbsent(item, '-');
  }

  /**
   * A range item `x-y` contributes `max(0, ord(y) - ord(x))` characters, the
   * codes from `ord(x)` up to but excluding `ord(y)`; whatever follows a
   * second `-` is ignored.
   */
  lemma RangeItem(x: char, y: char, rest: string)
    requires x != '-' && y != '-'
    requires IsByteString([x, '-', y] + rest)
    requires rest == [] || rest[0] == '-'
    ensures x as int < 256 && y as int < 256
    ensures ItemChars([x, '-', y] + rest) == Success(CodeRange(x as int, y as int))
    ensures |CodeRange(x as int, y as int)| == if x < y then y as int - x as int else 0
  {
    assert x in [x, '-', y] + rest && y in [x, '-', y] + rest;
    var item := [x, '-', y] + rest;
    assert item == [x] + ['-'] + ([y] + rest);
    SplitAbsent([x], '-');
    SplitAppend([x], [y] + rest, '-');
    if rest == [] {
      SplitAbsent([y], '-');
    } else {
      assert [y] + rest == [y] + ['-'] + rest[1..];
      SplitAbsent([y], '-');
      SplitAppend([y], rest[1..], '-');
    }
  }

  /** "a-z" stops at 'y': the upper endpoint is never in the choice set. */
  lemma LowerCaseRangeExcludesZ()
    ensures ItemChars("a-z").Success?
    ensures |ItemChars("a-z").value| == 25
    ensures ItemChars("a-z").value[24] == 'y'
    ensures 'z' !in ItemChars("a-z").value
  {
    RangeItem('a', 'z', "");
    assert "a-z" == ['a', '-', 'z'] + "";
  }

  /** A reversed range such as "z-a" contributes nothing. */
  lemma ReversedRangeEmpty(x: char, y: char)
    requires x != '-' && y != '-' && y <= x
    requires IsByteString([x, '-', y])
    ensures ItemChars([x, '-', y]) == Success("")
  {
    RangeItem(x, y, "");
    assert [x, '-', y] + "" == [x, '-', y];
  }

  /** Every character of `CodeRange(lo, hi)` has a code in `[lo, hi)`. */
  lemma CodeRangeMember(lo: nat, hi: nat)
    requires hi <= 256
    ensures forall c :: c in CodeRange(lo, hi) ==> lo <= c as int < hi
  {
    var r := CodeRange(lo, hi);
    forall c | c in r ensures lo <= c as int < hi {
      var k :| 0 <= k < |r| && r[k] == c;
    }
  }

  /** A description without a comma is a single item. */
  lemma ChoiceSetSingleItem(item: string)
    requires IsByteString(item) && ',' !in item
    ensures ChoiceSet(item) == ItemChars(item)
  {
    SplitAbsent(item, ',');
    SplitKeepsBytes(item, ',');
    var items := Split(item, ',');
    assert items[..0] == [] && items[0] == item;
    assert ConcatItems(items[..0]) == Success([]);
    if ItemChars(item).Success? {
      assert [] + ItemChars(item).value == ItemChars(item).value;
    }
  }

  /** The description `random_string`'s callers pass for letters and digits. */
  const Alphanumeric: string := "a-z,A-Z,0-9"

  /** A description of three comma-free items combines the three items' characters in order. */
  lemma ChoiceSetThreeItems(a: string, b: string, c: string)
    requires IsByteString(a) && IsByteString(b) && IsByteString(c)
    requires ',' !in a && ',' !in b && ',' !in c
    ensures IsByteString(a + "," + b + "," + c)
    ensures ChoiceSet(a + "," + b + "," + c) == Combine(ItemChars(a), Combine(ItemChars(b), ItemChars(c)))
  {
    ChoiceSetSingleItem(a);
    ChoiceSetSingleItem(b);
    ChoiceSetSingleItem(c);
    ChoiceSetAppend(b, c);
    ChoiceSetAppend(a, b + "," + c);
    assert a + "," + (b + "," + c) == a + "," + b + "," + c;
  }

  /** A character that can end a range item: neither separator, and a byte. */
  predicate RangeEnd(c: char) {
    c != '-' && c != ',' && c as int < 256
  }

  /** A range item `x-y` whose ends are plain bytes contributes the codes from `x` up to but excluding `y`. */
  lemma PlainRangeItem(x: char, y: char)
    requires RangeEnd(x) && RangeEnd(y)
    ensures IsByteString([x, '-', y]) && ',' !in [x, '-', y]
    ensures ItemChars([x, '-', y]) == Success(CodeRange(x as int, y as int))
  {
    RangeItem(x, y, "");
    assert [x, '-', y] + "" == [x, '-', y];
  }

  /** A description of three range items expands range by range, in order. */
  lemma ThreeRanges(x1: char, y1: char, x2: char, y2: char, x3: char, y3: char)
    requires RangeEnd(x1) && RangeEnd(y1) && RangeEnd(x2) && RangeEnd(y2) && RangeEnd(x3) && RangeEnd(y3)
    ensures IsByteString([x1, '-', y1] + "," + [x2, '-', y2] + "," + [x3, '-', y3])
    ensures ChoiceSet([x1, '-', y1] + "," + [x2, '-', y2] + "," + [x3, '-', y3]) ==
              Success(CodeRange(x1 as int, y1 as int) + (CodeRange(x2 as int, y2 as int) + CodeRange(x3 as int, y3 as int)))
  {
    PlainRangeItem(x1, y1);
    PlainRangeItem(x2, y2);
    PlainRangeItem(x3, y3);
    ChoiceSetThreeItems([x1, '-', y1], [x2, '-', y2], [x3, '-', y3]);
  }

  /** The description "a-z,A-Z,0-9" expands range by range, in order. */
  lemma AlphanumericRanges()
    ensures IsByteString(Alphanumeric)
    ensures ChoiceSet(Alphanumeric) ==
              Success(CodeRange('a' as int, 'z' as int) + (CodeRange('A' as int, 'Z' as int) + CodeRange('0' as int, '9' as int)))
  {
    ThreeRanges('a', 'z', 'A', 'Z', '0', '9');
    assert ['a', '-', 'z'] + "," + ['A', '-', 'Z'] + "," + ['0', '-', '9'] == Alphanumeric;
  }

  /**
   * The description "a-z,A-Z,0-9" yields 59 word characters, and 'z', 'Z'
   * and '9' are not among them.
   */
  lemma AlphanumericChoiceSet()
    ensures IsByteString(Alphanumeric)
    ensures ChoiceSet(Alphanumeric).Success?
    ensures |ChoiceSet(Alphanumeric).value| == 59
    ensures forall c :: c in ChoiceSet(Alphanumeric).value ==> IsWordChar(c) && c != 'z' && c != 'Z' && c != '9'
  {
    AlphanumericRanges();
    var lower, upper, digits := CodeRange('a' as int, 'z' as int), CodeRange('A' as int, 'Z' as int), CodeRange('0' as int, '9' as int);
    CodeRangeMember('a' as int, 'z' as int);
    CodeRangeMember('A' as int, 'Z' as int);
    CodeRangeMember('0' as int, '9' as int);
    var all := lower + (upper + digits);
    forall c | c in all ensures IsWordChar(c) && c != 'z' && c != 'Z' && c != '9' {
      assert c in lower || c in upper || c in digits;
    }
  }

  /** Which draws the random source may produce: indexes into a non-empty choice set. */
  predicate DrawsFit(spec: string, draws: seq<nat>)
    requires IsByteString(spec)
  {
    ChoiceSet(spec).Success? && ChoiceSet(spec).value != [] ==>
      forall k :: 0 <= k < |draws| ==> draws[k] < |ChoiceSet(spec).value|
  }

  /**
   * `random_string(length, type)`: parse errors propagate; `random.choice`
   * on an empty choice set raises IndexError; otherwise `length` characters
   * (none for a negative length), each the drawn member of the choice set.
   */
  function RandomString(length: int, spec: string, draws: seq<nat>): (r: Result<string>)
    requires IsByteString(spec)
    requires |draws| >= length
    requires DrawsFit(spec, draws)
    ensures r.Success? <==> ChoiceSet(spec).Success? && (length <= 0 || ChoiceSet(spec).value != [])
    ensures r.Failure? ==> r.error == if ChoiceSet(spec).Failure? then ChoiceSet(spec).error else IndexError
    ensures r.Success? ==> |r.value| == (if length > 0 then length else 0)
    ensures r.Success? ==> forall k :: 0 <= k < |r.value| ==> r.value[k] in ChoiceSet(spec).value
    ensures r.Success? ==> forall k :: 0 <= k < |r.value| ==> r.value[k] == ChoiceSet(spec).value[draws[k]]
  {
    match ChoiceSet(spec)
    case Failure(e) => Failure(e)
    case Success(choiceSet) =>
      if length <= 0 then Success("")
      else if choiceSet == [] then Failure(IndexError)
      else Success(seq(length, k requires 0 <= k < length => choiceSet[draws[k]]))
  }
}
