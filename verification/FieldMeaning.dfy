// What a field means, as sets of values, and that the parser gives it that meaning.
module FieldMeaning {
  import opened Text
  import opened Fields

  /** The documented shapes of an item, as a syntax tree. */
  datatype Base = Any | One(a: int) | Span(a: int, b: int)
  datatype Item = Plainly(base: Base) | Every(base: Base, step: int)

  predicate ValidBase(base: Base, minval: int, maxval: int) {
    match base
    case Any => true
    case One(a) => minval <= a <= maxval
    case Span(a, b) => minval <= a <= b <= maxval
  }

  predicate Valid(item: Item, minval: int, maxval: int) {
    ValidBase(item.base, minval, maxval) && (item.Every? ==> 1 <= item.step <= 255)
  }

  function First(base: Base, minval: int): int {
    if base.Any? then minval else base.a
  }

  /** The end of the values an item counts up to: a step after a single value runs to the maximum. */
  function Last(item: Item, maxval: int): int {
    match item.base
    case Any => maxval
    case One(a) => if item.Every? then maxval else a
    case Span(_, b) => b
  }

  /** The value v is one the item names. */
  predicate Denotes(item: Item, minval: int, maxval: int, v: int) {
    var first := First(item.base, minval);
    && first <= v <= Last(item, maxval)
    && (item.Every? ==> item.step != 0 && (v - first) % item.step == 0)
  }

  /** What can be written in decimals. */
  predicate WritableBase(base: Base) {
    match base
    case Any => true
    case One(a) => 0 <= a
    case Span(a, b) => 0 <= a && 0 <= b
  }

  predicate Writable(item: Item) {
    WritableBase(item.base) && (item.Every? ==> 0 <= item.step)
  }

  function RenderBase(base: Base): (s: string)
    requires WritableBase(base)
  {
    match base
    case Any => "*"
    case One(a) => Decimal(a)
    case Span(a, b) => Decimal(a) + ['-'] + Decimal(b)
  }

  function Render(item: Item): string
    requires Writable(item)
  {
    match item
    case Plainly(base) => RenderBase(base)
    case Every(base, step) => RenderBase(base) + ['/'] + Decimal(step)
  }

  predicate FieldText(s: string) {
    s != [] && forall c :: c in s ==> IsDigit(c) || c == '-' || c == '*' || c == '/'
  }

  lemma BaseText(base: Base)
    requires WritableBase(base)
    ensures FieldText(RenderBase(base)) && '/' !in RenderBase(base)
    ensures '-' in RenderBase(base) <==> base.Span?
    ensures RenderBase(base) == "*" <==> base.Any?
  {
    hide Decimal;
    if base.One? {
      assert Decimal(base.a)[0] in Decimal(base.a);
    }
    if base.Span? {
      assert RenderBase(base)[|Decimal(base.a)|] == '-';
      assert "*"[0] == '*';
      assert Decimal(base.a)[0] in Decimal(base.a) && RenderBase(base)[0] == Decimal(base.a)[0];
    }
  }

  lemma TwoTokens(x: string, y: string, delimiter: char)
    requires y != [] && Plain(x, delimiter) && Plain(y, delimiter) && delimiter != '\0'
    ensures Tokens(x + [delimiter] + y, delimiter) == [x, y]
  {
    hide Tokens;
    assert [x, y][1..] == [y];
    assert Join([x, y], delimiter) == x + [delimiter] + y;
    TokensOfJoin([x, y], delimiter);
  }

  lemma RangeOfBase(base: Base, minval: int, maxval: int)
    requires Bounds(minval, maxval) && ValidBase(base, minval, maxval)
    ensures MakeRange(RenderBase(base), minval, maxval) == Ok((First(base, minval), Last(Plainly(base), maxval)))
  {
    hide Decimal, Tokens, ToCronInt;
    BaseText(base);
    match base
    case Any =>
    case One(a) => DecimalReadBack(a);
    case Span(a, b) =>
      DecimalReadBack(a);
      DecimalReadBack(b);
      TwoTokens(Decimal(a), Decimal(b), '-');
  }

  function BitsOf(item: Item, minval: int, maxval: int): set<int>
    requires Bounds(minval, maxval) && Valid(item, minval, maxval)
  {
    match item
    case Plainly(base) => Interval(First(base, minval) - minval, Last(item, maxval) - minval)
    case Every(base, step) => StepBits(First(base, minval) - minval, Last(item, maxval) - minval, step)
  }

  // ---------- The item that an accepted text stands for ----------

  function BaseOf(text: string, minval: int, maxval: int): Base
    requires MakeRange(text, minval, maxval).Ok?
  {
    var (first, last) := MakeRange(text, minval, maxval).value;
    if text == "*" then Any else if '-' in text then Span(first, last) else One(first)
  }

  function ItemOf(text: string, minval: int, maxval: int): Item
    requires Bounds(minval, maxval) && ItemBits(text, minval, maxval).Ok?
  {
    if '/' !in text then Plainly(BaseOf(text, minval, maxval))
    else
      var parts := Tokens(text, '/');
      Every(BaseOf(parts[0], minval, maxval), ToCronInt(parts[1]).value)
  }

  /** Whatever its spelling, an accepted text sets the bits of the item read from it. */
  lemma ItemRead(text: string, minval: int, maxval: int)
    requires Bounds(minval, maxval) && ItemBits(text, minval, maxval).Ok?
    ensures Valid(ItemOf(text, minval, maxval), minval, maxval)
    ensures ItemBits(text, minval, maxval) == Ok(BitsOf(ItemOf(text, minval, maxval), minval, maxval))
  {
    hide Tokens, ToCronInt, StepBits, Interval;
    var base := if '/' in text then Tokens(text, '/')[0] else text;
    StarHasNoDash();
    RangeRead(base, minval, maxval);
  }

  lemma StarHasNoDash()
    ensures '-' !in "*"
  {
  }

  lemma RangeRead(text: string, minval: int, maxval: int)
    requires Bounds(minval, maxval) && MakeRange(text, minval, maxval).Ok?
    ensures var base := BaseOf(text, minval, maxval);
            && ValidBase(base, minval, maxval)
            && MakeRange(text, minval, maxval) == Ok((First(base, minval), Last(Plainly(base), maxval)))
            && (base.Span? <==> '-' in text)
  {
    hide Tokens, ToCronInt;
    StarHasNoDash();
  }

  /** Round trip: the text of an item is accepted and read back as that item. */
  lemma ItemParses(item: Item, minval: int, maxval: int)
    requires Bounds(minval, maxval) && Valid(item, minval, maxval)
    ensures FieldText(Render(item))
    ensures ItemBits(Render(item), minval, maxval) == Ok(BitsOf(item, minval, maxval))
    ensures ItemOf(Render(item), minval, maxval) == item
  {
    hide Decimal, Tokens, ToCronInt, RenderBase, MakeRange, StepBits, Interval;
    var text := RenderBase(item.base);
    BaseText(item.base);
    RangeOfBase(item.base, minval, maxval);
    if item.Every? {
      assert Render(item)[|text|] == '/';
      DecimalReadBack(item.step);
      TwoTokens(text, Decimal(item.step), '/');
    }
  }

  lemma ProgressionIff(i: int, delta: int, b: int)
    requires delta > 0
    ensures InProgression(i, delta, b) <==> b >= i && (b - i) % delta == 0
  {
    if InProgression(i, delta, b) {
      var k :| k >= 0 && Term(i, k, delta) == b;
      MultipleOf(k, delta);
    }
    if b >= i && (b - i) % delta == 0 {
      var k := (b - i) / delta;
      assert Term(i, k, delta) == b;
    }
  }

  lemma MultipleOf(k: int, delta: int)
    requires delta > 0 && k >= 0
    ensures k * delta >= 0 && k * delta % delta == 0
  {
    var q, r := k * delta / delta, k * delta % delta;
    assert (k - q) * delta == r;
    MultipleGrows(k - q, delta);
  }

  lemma MultipleGrows(c: int, delta: int)
    requires delta > 0
    ensures c >= 1 ==> c * delta >= delta
    ensures c <= -1 ==> c * delta <= -delta
  {
  }

  lemma ProgressionDownIff(i: int, delta: int, b: int)
    requires delta > 0
    ensures InProgression(i, -delta, b) <==> b <= i && (i - b) % delta == 0
  {
    ProgressionIff(-i, delta, -b);
    if InProgression(i, -delta, b) {
      var k :| k >= 0 && Term(i, k, -delta) == b;
      assert Term(-i, k, delta) == -b;
    }
    if InProgression(-i, delta, -b) {
      var k :| k >= 0 && Term(-i, k, delta) == -b;
      assert Term(i, k, -delta) == b;
    }
  }

  /** The first step of the item leaves the eight bits of its counter. */
  predicate Wraps(item: Item, minval: int) {
    item.Every? && First(item.base, minval) - minval + item.step > 255
  }

  /** The value v is one that the counter of a wrapping item comes down on. */
  predicate ComesDownOn(item: Item, minval: int, v: int) {
    && Wraps(item, minval)
    && minval <= v < First(item.base, minval)
    && item.step != 256 && (First(item.base, minval) - v) % (256 - item.step) == 0
  }

  /** The bits of an item are the values it names and those its wrapped counter comes down on. */
  lemma BitsOfMeans(item: Item, minval: int, maxval: int, v: int)
    requires Bounds(minval, maxval) && Valid(item, minval, maxval)
    ensures v - minval in BitsOf(item, minval, maxval)
       <==> Denotes(item, minval, maxval, v) || ComesDownOn(item, minval, v)
  {
    hide InProgression, StepBits, Interval;
    if item.Every? {
      var first, r := First(item.base, minval) - minval, Last(item, maxval) - minval;
      var b := v - minval;
      if first + item.step <= 255 {
        StepsUp(first, r, item.step, b);
        ProgressionIff(first, item.step, b);
      } else {
        WrappedBits(item, minval, maxval, v);
      }
    }
  }

  lemma WrappedBits(item: Item, minval: int, maxval: int, v: int)
    requires Bounds(minval, maxval) && Valid(item, minval, maxval) && Wraps(item, minval)
    ensures v - minval in BitsOf(item, minval, maxval)
       <==> v == First(item.base, minval) || ComesDownOn(item, minval, v)
    ensures Denotes(item, minval, maxval, v) <==> v == First(item.base, minval)
  {
    hide InProgression, StepBits;
    var first, r := First(item.base, minval) - minval, Last(item, maxval) - minval;
    StepsDown(first, r, item.step, v - minval);
    assert item.step - 256 == -(256 - item.step);
    ProgressionDownIff(first, 256 - item.step, v - minval);
    assert first - (v - minval) == First(item.base, minval) - v;
    if first < v - minval <= r { SmallRemainder(v - minval - first, item.step); }
    ZeroRemainder(item.step);
    ZeroRemainder(256 - item.step);
  }

  lemma ZeroRemainder(delta: int)
    requires delta > 0
    ensures 0 % delta == 0 && delta % delta == 0
  {
  }

  lemma SmallRemainder(a: int, delta: int)
    requires 0 < a < delta
    ensures a % delta != 0
  {
  }

  /** The bits are the values the item names, exactly when its first step does not wrap in eight bits. */
  lemma BitsAreMeaning(item: Item, minval: int, maxval: int)
    requires Bounds(minval, maxval) && Valid(item, minval, maxval)
    ensures (forall v :: v - minval in BitsOf(item, minval, maxval) <==> Denotes(item, minval, maxval, v))
       <==> !Wraps(item, minval)
  {
    hide BitsOf, Denotes;
    forall v ensures v - minval in BitsOf(item, minval, maxval)
                <==> Denotes(item, minval, maxval, v) || ComesDownOn(item, minval, v)
    {
      BitsOfMeans(item, minval, maxval, v);
    }
    if Wraps(item, minval) {
      var v := First(item.base, minval) - (256 - item.step);
      ZeroRemainder(256 - item.step);
      assert ComesDownOn(item, minval, v);
      WrappedBits(item, minval, maxval, v);
    }
  }

  // ---------- Whole fields ----------

  /** A field is accepted when every item is, and its bits are the union of theirs. */
  lemma {:induction false} ItemsUnion(items: seq<string>, minval: int, maxval: int)
    requires Bounds(minval, maxval)
    ensures ItemsBits(items, minval, maxval).Ok? <==> forall t :: t in items ==> ItemBits(t, minval, maxval).Ok?
    ensures ItemsBits(items, minval, maxval).Ok? ==>
              forall b :: b in ItemsBits(items, minval, maxval).value <==>
                exists t :: t in items && ItemBits(t, minval, maxval).Ok? && b in ItemBits(t, minval, maxval).value
  {
    hide ItemBits;
    if items != [] {
      assert items == [items[0]] + items[1..];
      ItemsUnion(items[1..], minval, maxval);
    }
  }

  /** Neither the order of the items nor their repetition matters. */
  lemma OrderDoesNotMatter(items: seq<string>, others: seq<string>, minval: int, maxval: int)
    requires Bounds(minval, maxval) && forall t :: t in items <==> t in others
    ensures ItemsBits(items, minval, maxval).Ok? <==> ItemsBits(others, minval, maxval).Ok?
    ensures ItemsBits(items, minval, maxval).Ok? ==>
              ItemsBits(items, minval, maxval) == ItemsBits(others, minval, maxval)
  {
    hide ItemBits, ItemsBits;
    ItemsUnion(items, minval, maxval);
    ItemsUnion(others, minval, maxval);
    if ItemsBits(items, minval, maxval).Ok? {
      assert ItemsBits(items, minval, maxval).value == ItemsBits(others, minval, maxval).value;
    }
  }

  function RenderAll(items: seq<Item>): (texts: seq<string>)
    requires forall i :: i in items ==> Writable(i)
    ensures |texts| == |items| && forall k :: 0 <= k < |items| ==> texts[k] == Render(items[k])
  {
    if items == [] then [] else [Render(items[0])] + RenderAll(items[1..])
  }

  lemma LastOfJoin(tokens: seq<string>, delimiter: char)
    requires tokens != [] && tokens[|tokens| - 1] != []
    ensures var s, t := Join(tokens, delimiter), tokens[|tokens| - 1];
            s != [] && s[|s| - 1] == t[|t| - 1]
  {
  }

  function ItemsOf(texts: seq<string>, minval: int, maxval: int): (items: seq<Item>)
    requires Bounds(minval, maxval) && forall t :: t in texts ==> ItemBits(t, minval, maxval).Ok?
    ensures |items| == |texts| && forall k :: 0 <= k < |texts| ==> items[k] == ItemOf(texts[k], minval, maxval)
  {
    if texts == [] then [] else [ItemOf(texts[0], minval, maxval)] + ItemsOf(texts[1..], minval, maxval)
  }

  /** The items of an accepted field. */
  function FieldItems(value: string, minval: int, maxval: int): seq<Item>
    requires Bounds(minval, maxval) && FieldBits(value, minval, maxval).Ok?
  {
    ItemsUnion(Tokens(value, ','), minval, maxval);
    ItemsOf(Tokens(value, ','), minval, maxval)
  }

  predicate AllValid(items: seq<Item>, minval: int, maxval: int) {
    items != [] && forall i :: i in items ==> Valid(i, minval, maxval)
  }

  lemma UnionMember(items: seq<Item>, texts: seq<string>, minval: int, maxval: int, b: int)
    requires Bounds(minval, maxval) && |items| == |texts|
    requires forall i :: i in items ==> Valid(i, minval, maxval)
    requires forall k :: 0 <= k < |items| ==> ItemBits(texts[k], minval, maxval) == Ok(BitsOf(items[k], minval, maxval))
    ensures (exists t :: t in texts && ItemBits(t, minval, maxval).Ok? && b in ItemBits(t, minval, maxval).value)
       <==> exists i :: i in items && b in BitsOf(i, minval, maxval)
  {
    hide BitsOf, ItemBits;
    if t :| t in texts && ItemBits(t, minval, maxval).Ok? && b in ItemBits(t, minval, maxval).value {
      var k :| 0 <= k < |texts| && texts[k] == t;
      assert items[k] in items;
    }
    if i :| i in items && b in BitsOf(i, minval, maxval) {
      var k :| 0 <= k < |items| && items[k] == i;
      assert texts[k] in texts;
    }
  }

  /** An accepted field sets the union of the bits of the items read from it. */
  lemma FieldRead(value: string, minval: int, maxval: int)
    requires Bounds(minval, maxval) && FieldBits(value, minval, maxval).Ok?
    ensures var items := FieldItems(value, minval, maxval);
            && AllValid(items, minval, maxval)
            && forall b :: b in FieldBits(value, minval, maxval).value <==> exists i :: i in items && b in BitsOf(i, minval, maxval)
  {
    hide ItemBits, ItemsBits, Tokens, ItemOf, BitsOf, Valid;
    var texts := Tokens(value, ',');
    ItemsUnion(texts, minval, maxval);
    var items := ItemsOf(texts, minval, maxval);
    forall k | 0 <= k < |items|
      ensures Valid(items[k], minval, maxval) && ItemBits(texts[k], minval, maxval) == Ok(BitsOf(items[k], minval, maxval))
    {
      assert texts[k] in texts;
      ItemRead(texts[k], minval, maxval);
    }
    forall b ensures b in ItemsBits(texts, minval, maxval).value <==> exists i :: i in items && b in BitsOf(i, minval, maxval) {
      UnionMember(items, texts, minval, maxval, b);
    }
  }

  /** Some item names the value v. */
  predicate Named(items: seq<Item>, minval: int, maxval: int, v: int) {
    exists i :: i in items && Denotes(i, minval, maxval, v)
  }

  /** Every value that a wrapped counter comes down on is named by an item all the same. */
  predicate WrapsCovered(items: seq<Item>, minval: int, maxval: int) {
    forall i, v :: i in items && minval <= v <= maxval && ComesDownOn(i, minval, v) ==> Named(items, minval, maxval, v)
  }

  /** What a field means, exactly: the set of an accepted field, in any spelling, is the values its items
      name, if and only if no counter wraps down to a value that no item names. */
  lemma FieldMeansIff(value: string, minval: int, maxval: int)
    requires Bounds(minval, maxval) && FieldBits(value, minval, maxval).Ok?
    ensures var items, bits := FieldItems(value, minval, maxval), FieldBits(value, minval, maxval).value;
            && AllValid(items, minval, maxval)
            && ((forall v :: v - minval in bits <==> Named(items, minval, maxval, v)) <==> WrapsCovered(items, minval, maxval))
  {
    hide FieldBits, FieldItems, BitsOf, Denotes, Valid, Wraps, ComesDownOn;
    FieldRead(value, minval, maxval);
    var items, bits := FieldItems(value, minval, maxval), FieldBits(value, minval, maxval).value;
    forall v, i | i in items
      ensures v - minval in BitsOf(i, minval, maxval)
         <==> Denotes(i, minval, maxval, v) || ComesDownOn(i, minval, v)
    {
      BitsOfMeans(i, minval, maxval, v);
    }
  }

  lemma NoWrapsCovered(items: seq<Item>, minval: int, maxval: int)
    requires (forall i :: i in items ==> !Wraps(i, minval)) || Plainly(Any) in items
    ensures WrapsCovered(items, minval, maxval)
  {
  }

  lemma TextsParse(items: seq<Item>, minval: int, maxval: int)
    requires Bounds(minval, maxval) && AllValid(items, minval, maxval)
    ensures var texts := RenderAll(items);
            forall k :: 0 <= k < |items| ==>
              && FieldText(texts[k]) && ItemBits(texts[k], minval, maxval).Ok?
              && ItemOf(texts[k], minval, maxval) == items[k]
  {
    hide Render, BitsOf, ItemBits, ItemOf, RenderAll, FieldText;
    assert forall i :: i in items ==> Writable(i) by { AllWritable(items, minval, maxval); }
    forall i | i in items
      ensures FieldText(Render(i)) && ItemBits(Render(i), minval, maxval).Ok?
      ensures ItemOf(Render(i), minval, maxval) == i
    {
      ItemParses(i, minval, maxval);
    }
    assert forall k :: 0 <= k < |items| ==> items[k] in items;
  }

  lemma JoinedTokens(texts: seq<string>)
    requires texts != [] && forall k :: 0 <= k < |texts| ==> FieldText(texts[k])
    ensures var text := Join(texts, ',');
            Tokens(text, ',') == texts && text != [] && text[|text| - 1] != ','
  {
    hide Tokens, Join;
    forall t | t in texts ensures Plain(t, ',') {
      var k :| 0 <= k < |texts| && texts[k] == t;
    }
    TokensOfJoin(texts, ',');
    LastOfJoin(texts, ',');
    var last := texts[|texts| - 1];
    assert last[|last| - 1] in last;
  }

  /** The text of a list of items is accepted and read back as that list. */
  lemma FieldParses(items: seq<Item>, minval: int, maxval: int)
    requires Bounds(minval, maxval) && AllValid(items, minval, maxval)
    ensures var text := Join(RenderAll(items), ',');
            FieldBits(text, minval, maxval).Ok? && FieldItems(text, minval, maxval) == items
  {
    hide Render, BitsOf, ItemBits, ItemsBits, Tokens, Join, ItemOf, RenderAll, FieldText, Valid;
    assert forall i :: i in items ==> Writable(i) by { AllWritable(items, minval, maxval); }
    var texts := RenderAll(items);
    TextsParse(items, minval, maxval);
    JoinedTokens(texts);
    ItemsUnion(texts, minval, maxval);
  }

  lemma AllWritable(items: seq<Item>, minval: int, maxval: int)
    requires Bounds(minval, maxval) && AllValid(items, minval, maxval)
    ensures forall i :: i in items ==> Writable(i)
  {
  }

  /** A counter that wraps is harmless beside a `*`: `*,59/255` means every minute. */
  lemma StarHidesWrap()
    ensures var items := [Plainly(Any), Every(One(59), 255)];
            && AllValid(items, 0, 59) && Wraps(items[1], 0)
            && var r := FieldBits(Join(RenderAll(items), ','), 0, 59);
               r.Ok? && forall v :: v - 0 in r.value <==> Named(items, 0, 59, v)
  {
    hide RenderAll, Join, FieldBits, FieldItems, Denotes, Named, WrapsCovered, Valid;
    var star, wrapping := Plainly(Any), Every(One(59), 255);
    var items := [star, wrapping];
    BothValid(star, wrapping);
    assert items[0] in items;
    FieldParses(items, 0, 59);
    FieldMeansIff(Join(RenderAll(items), ','), 0, 59);
    NoWrapsCovered(items, 0, 59);
  }

  lemma BothValid(a: Item, b: Item)
    requires Valid(a, 0, 59) && Valid(b, 0, 59)
    ensures AllValid([a, b], 0, 59)
  {
  }

  function Singles(values: seq<int>): (items: seq<Item>)
    ensures |items| == |values| && forall k :: 0 <= k < |values| ==> items[k] == Plainly(One(values[k]))
  {
    if values == [] then [] else [Plainly(One(values[0]))] + Singles(values[1..])
  }

  /** Round trip: values written as comma-separated decimals, in any order, parse to the set of them. */
  lemma ValuesRoundTrip(values: seq<int>, minval: int, maxval: int)
    requires Bounds(minval, maxval) && values != [] && forall v :: v in values ==> minval <= v <= maxval
    ensures var items := Singles(values);
            && AllValid(items, minval, maxval)
            && var r := FieldBits(Join(RenderAll(items), ','), minval, maxval);
               r.Ok? && forall v :: v - minval in r.value <==> v in values
  {
    hide RenderAll, Join, FieldBits, Singles, FieldItems;
    var items := Singles(values);
    forall i | i in items ensures Valid(i, minval, maxval) && !Wraps(i, minval) {
      var k :| 0 <= k < |items| && items[k] == i;
      assert values[k] in values;
    }
    FieldParses(items, minval, maxval);
    FieldMeansIff(Join(RenderAll(items), ','), minval, maxval);
    NoWrapsCovered(items, minval, maxval);
    forall v ensures Named(items, minval, maxval, v) <==> v in values {
      if v in values {
        var k :| 0 <= k < |values| && values[k] == v;
        assert items[k] in items;
      }
    }
  }
}
