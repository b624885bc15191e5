// One field of a cron expression: comma-separated items to a bit set.
module Fields {
  import opened Text

  // ---------- The 8-bit step loop ----------

  /** How far the loop over an 8-bit counter is from its end.  Increments above 196 either leave
      the range at once or wrap around to a smaller bit. */
  function StepRank(i: int, r: int, delta: int): nat {
    if i > r || i > 255 then 0 else if delta <= 196 then 256 - i else if i >= 0 then i + 1 else 0
  }

  lemma StepRankFalls(i: int, r: int, delta: int)
    requires 0 <= i <= r <= 59 && 1 <= delta <= 255
    ensures StepRank((i + delta) % 256, r, delta) < StepRank(i, r, delta)
  {
  }

  /** The bits set by `for (cron_int i = first; i <= r; i += delta)`. */
  function StepBits(i: int, r: int, delta: int): (s: set<int>)
    requires 0 <= i < 256 && 0 <= r <= 59 && 1 <= delta <= 255
    ensures forall b :: b in s ==> 0 <= b <= r
    decreases StepRank(i, r, delta)
  {
    if i > r then {} else StepRankFalls(i, r, delta); {i} + StepBits((i + delta) % 256, r, delta)
  }

  function Term(i: int, k: int, delta: int): int {
    i + k * delta
  }

  /** b is a member of the arithmetic progression i, i + delta, i + 2 * delta, ... */
  ghost predicate InProgression(i: int, delta: int, b: int) {
    exists k :: k >= 0 && Term(i, k, delta) == b
  }

  lemma ProgressionStep(i: int, delta: int, b: int)
    ensures InProgression(i, delta, b) <==> b == i || InProgression(i + delta, delta, b)
  {
    assert Term(i, 0, delta) == i;
    if InProgression(i, delta, b) {
      var k :| k >= 0 && Term(i, k, delta) == b;
      if k > 0 {
        assert Term(i + delta, k - 1, delta) == b;
      }
    }
    if InProgression(i + delta, delta, b) {
      var k :| k >= 0 && Term(i + delta, k, delta) == b;
      assert Term(i, k + 1, delta) == b;
    }
  }

  lemma ProgressionAbove(i: int, delta: int, b: int)
    requires delta > 0 && InProgression(i, delta, b)
    ensures b >= i
  {
    var k :| k >= 0 && Term(i, k, delta) == b;
    assert k * delta >= 0;
  }

  lemma ProgressionBelow(i: int, delta: int, b: int)
    requires delta < 0 && InProgression(i, delta, b)
    ensures b <= i
  {
    var k :| k >= 0 && Term(i, k, delta) == b;
    assert k * delta <= 0;
  }

  /** While no step wraps, the loop sets exactly the arithmetic progression. */
  lemma {:induction false} StepsUp(i: int, r: int, delta: int, b: int)
    requires 0 <= i < 256 && 0 <= r <= 59 && 1 <= delta <= 255
    requires i <= r ==> i + delta <= 255
    ensures b in StepBits(i, r, delta) <==> b <= r && InProgression(i, delta, b)
    decreases StepRank(i, r, delta)
  {
    hide InProgression;
    if i > r {
      if InProgression(i, delta, b) { ProgressionAbove(i, delta, b); }
    } else {
      StepRankFalls(i, r, delta);
      StepsUp(i + delta, r, delta, b);
      ProgressionStep(i, delta, b);
    }
  }

  /** Once a step wraps, every further step goes down by 256 - delta. */
  lemma {:induction false} StepsDown(i: int, r: int, delta: int, b: int)
    requires 0 <= i <= r <= 59 && 197 <= delta <= 255
    ensures b in StepBits(i, r, delta) <==> 0 <= b && InProgression(i, delta - 256, b)
    decreases i
  {
    hide InProgression;
    ProgressionStep(i, delta - 256, b);
    if i + delta > 255 {
      StepsDown(i + delta - 256, r, delta, b);
    } else {
      assert StepBits(i + delta, r, delta) == {};
      if InProgression(i + (delta - 256), delta - 256, b) { ProgressionBelow(i + (delta - 256), delta - 256, b); }
    }
  }

  /** The loop sets the progression the field asks for exactly when its first step does not wrap. */
  lemma StepsMeanProgression(i: int, r: int, delta: int)
    requires 0 <= i <= r <= 59 && 1 <= delta <= 255
    ensures (forall b :: b in StepBits(i, r, delta) <==> b <= r && InProgression(i, delta, b))
       <==> i + delta <= 255
  {
    hide InProgression;
    if i + delta <= 255 {
      forall b ensures b in StepBits(i, r, delta) <==> b <= r && InProgression(i, delta, b) {
        StepsUp(i, r, delta, b);
      }
    } else {
      var b := i + delta - 256;
      ProgressionStep(i, delta - 256, b);
      assert InProgression(b, delta - 256, b) by { ProgressionStep(b, delta - 256, b); }
      StepsDown(i, r, delta, b);
      if InProgression(i, delta, b) { ProgressionAbove(i, delta, b); }
    }
  }

  // ---------- Items ----------

  function Interval(first: int, last: int): (s: set<int>)
    ensures forall b :: b in s <==> first <= b <= last
    decreases last - first
  {
    if first > last then {} else {first} + Interval(first + 1, last)
  }

  /** make_range: the pair of bounds an item names. */
  function MakeRange(field: string, minval: int, maxval: int): (r: Result<(int, int)>)
    ensures r.Ok? && minval <= maxval ==> minval <= r.value.0 <= r.value.1 <= maxval
  {
    if field == "*" then CheckRange(minval, maxval, minval, maxval)
    else if '-' !in field then
      match ToCronInt(field)
      case Bad(e) => Bad(e)
      case Ok(v) => CheckRange(v, v, minval, maxval)
    else
      var parts := Tokens(field, '-');
      if |parts| != 2 then Bad(BadRange)
      else
        match ToCronInt(parts[0])
        case Bad(e) => Bad(e)
        case Ok(first) =>
          match ToCronInt(parts[1])
          case Bad(e) => Bad(e)
          case Ok(last) => CheckRange(first, last, minval, maxval)
  }

  function CheckRange(first: int, last: int, minval: int, maxval: int): Result<(int, int)> {
    if first > maxval || last > maxval then Bad(ExceedsMaximum)
    else if first < minval || last < minval then Bad(BelowMinimum)
    else if first > last then Bad(StartExceedsEnd)
    else Ok((first, last))
  }

  predicate Bounds(minval: int, maxval: int) {
    0 <= minval <= maxval <= 59
  }

  /** The bits one item sets, counted from minval. */
  function ItemBits(item: string, minval: int, maxval: int): (r: Result<set<int>>)
    requires Bounds(minval, maxval)
    ensures r.Ok? ==> (exists b :: b in r.value) && forall b :: b in r.value ==> 0 <= b <= maxval - minval
  {
    if '/' !in item then
      match MakeRange(item, minval, maxval)
      case Bad(e) => Bad(e)
      case Ok(range) =>
        assert range.0 - minval in Interval(range.0 - minval, range.1 - minval);
        Ok(Interval(range.0 - minval, range.1 - minval))
    else
      var parts := Tokens(item, '/');
      if |parts| != 2 then Bad(BadIncrementer)
      else
        match MakeRange(parts[0], minval, maxval)
        case Bad(e) => Bad(e)
        case Ok(range) =>
          var last := if '-' !in parts[0] then maxval else range.1;
          match ToCronInt(parts[1])
          case Bad(e) => Bad(e)
          case Ok(delta) =>
            if delta <= 0 then Bad(ZeroIncrement)
            else
              assert range.0 - minval in StepBits(range.0 - minval, last - minval, delta);
              Ok(StepBits(range.0 - minval, last - minval, delta))
  }

  /** The bits of all items, or the error of the first item that has one. */
  function ItemsBits(items: seq<string>, minval: int, maxval: int): (r: Result<set<int>>)
    requires Bounds(minval, maxval)
    ensures r.Ok? ==> forall b :: b in r.value ==> 0 <= b <= maxval - minval
    ensures r.Ok? && items != [] ==> exists b :: b in r.value
  {
    if items == [] then Ok({})
    else
      match ItemBits(items[0], minval, maxval)
      case Bad(e) => Bad(e)
      case Ok(s) =>
        match ItemsBits(items[1..], minval, maxval)
        case Bad(e) => Bad(e)
        case Ok(t) => Ok(s + t)
  }

  /** set_cron_field on an empty target. */
  function FieldBits(value: string, minval: int, maxval: int): (r: Result<set<int>>)
    requires Bounds(minval, maxval)
    ensures r.Ok? ==> (exists b :: b in r.value) && forall b :: b in r.value ==> 0 <= b <= maxval - minval
  {
    if value != [] && value[|value| - 1] == ',' then Bad(TrailingComma)
    else
      var items := Tokens(value, ',');
      if items == [] then Bad(NoItems) else ItemsBits(items, minval, maxval)
  }

  // ---------- The loops over a target ----------

  /** for (cron_int i = first; i <= last; ++i) target.set(i) */
  method SetRange(target: set<int>, first: int, last: int, size: int) returns (bits: set<int>)
    requires 0 <= first && last < size <= 60
    ensures bits == target + Interval(first, last)
  {
    bits := target;
    var i := first;
    while i <= last
      invariant first <= i && (i <= last + 1 || i == first)
      invariant bits + Interval(i, last) == target + Interval(first, last)
      decreases last - i
    {
      assert i < size;
      bits := bits + {i};
      i := (i + 1) % 256;
    }
  }

  /** for (cron_int i = first; i <= last; i += delta) target.set(i), in eight bits */
  method SetSteps(target: set<int>, first: int, last: int, delta: int, size: int) returns (bits: set<int>)
    requires 0 <= first <= last < size <= 60 && 1 <= delta <= 255
    ensures bits == target + StepBits(first, last, delta)
  {
    bits := target;
    var i := first;
    while i <= last
      invariant 0 <= i < 256
      invariant bits + StepBits(i, last, delta) == target + StepBits(first, last, delta)
      decreases StepRank(i, last, delta)
    {
      assert i < size;
      StepRankFalls(i, last, delta);
      bits := bits + {i};
      i := (i + delta) % 256;
    }
  }

  lemma {:induction false} ItemsAppend(done: seq<string>, item: string, minval: int, maxval: int)
    requires Bounds(minval, maxval)
    ensures ItemsBits(done + [item], minval, maxval)
         == match ItemsBits(done, minval, maxval)
            case Bad(e) => Bad(e)
            case Ok(s) =>
              match ItemBits(item, minval, maxval)
              case Bad(e) => Bad(e)
              case Ok(t) => Ok(s + t)
  {
    hide ItemBits;
    if done == [] {
      assert (done + [item])[1..] == [];
      assert ItemsBits([], minval, maxval) == Ok({});
      if ItemBits(item, minval, maxval).Ok? {
        assert {} + ItemBits(item, minval, maxval).value == ItemBits(item, minval, maxval).value + {};
      }
    } else {
      assert (done + [item])[1..] == done[1..] + [item];
      ItemsAppend(done[1..], item, minval, maxval);
      var head, tail, last := ItemBits(done[0], minval, maxval), ItemsBits(done[1..], minval, maxval),
        ItemBits(item, minval, maxval);
      if head.Ok? && tail.Ok? && last.Ok? {
        assert head.value + (tail.value + last.value) == head.value + tail.value + last.value;
      }
    }
  }

  lemma {:induction false} BadPrefix(items: seq<string>, k: nat, minval: int, maxval: int)
    requires Bounds(minval, maxval) && k <= |items| && ItemsBits(items[..k], minval, maxval).Bad?
    ensures ItemsBits(items, minval, maxval) == ItemsBits(items[..k], minval, maxval)
  {
    hide ItemBits;
    if k > 0 && ItemBits(items[0], minval, maxval).Ok? {
      assert items[..k][1..] == items[1..][..k - 1];
      BadPrefix(items[1..], k - 1, minval, maxval);
    }
  }

  /** set_cron_field. */
  method SetCronField(value: string, minval: int, maxval: int, size: int) returns (r: Result<set<int>>)
    requires Bounds(minval, maxval) && maxval - minval < size <= 60
    ensures r == FieldBits(value, minval, maxval)
  {
    hide ItemBits, Tokens, MakeRange, ToCronInt;
    if |value| > 0 && value[|value| - 1] == ',' {
      return Bad(TrailingComma);
    }
    var fields := Split(value, ',');
    if fields == [] {
      return Bad(NoItems);
    }
    var target := {};
    for k := 0 to |fields|
      invariant ItemsBits(fields[..k], minval, maxval) == Ok(target)
    {
      ItemsAppend(fields[..k], fields[k], minval, maxval);
      assert fields[..k + 1] == fields[..k] + [fields[k]];
      var one := SetItem(fields[k], target, minval, maxval, size);
      if one.Bad? {
        BadPrefix(fields, k + 1, minval, maxval);
        return one;
      }
      target := one.value;
    }
    assert fields[..|fields|] == fields;
    r := Ok(target);
  }

  /** The body of set_cron_field's loop. */
  method SetItem(field: string, target: set<int>, minval: int, maxval: int, size: int) returns (r: Result<set<int>>)
    requires Bounds(minval, maxval) && maxval - minval < size <= 60
    ensures match ItemBits(field, minval, maxval)
            case Bad(e) => r == Bad(e)
            case Ok(s) => r == Ok(target + s)
  {
    hide Tokens, MakeRange, ToCronInt, StepBits, StepRank;
    if '/' !in field {
      var range := MakeRange(field, minval, maxval);
      if range.Bad? {
        return Bad(range.error);
      }
      var (first, last) := range.value;
      var bits := SetRange(target, first - minval, last - minval, size);
      return Ok(bits);
    }
    var parts := Split(field, '/');
    if |parts| != 2 {
      return Bad(BadIncrementer);
    }
    var range := MakeRange(parts[0], minval, maxval);
    if range.Bad? {
      return Bad(range.error);
    }
    var (first, last) := range.value;
    if '-' !in parts[0] {
      last := maxval;
    }
    var delta := ToCronInt(parts[1]);
    if delta.Bad? {
      return Bad(delta.error);
    }
    if delta.value <= 0 {
      return Bad(ZeroIncrement);
    }
    var bits := SetSteps(target, first - minval, last - minval, delta.value, size);
    r := Ok(bits);
  }
}
