// Month and weekday names: upper-casing and replace_ordinals.
module Names {
  import opened Text

  const DAYS := ["SUN", "MON", "TUE", "WED", "THU", "FRI", "SAT"]
  const MONTHS := ["NIL", "JAN", "FEB", "MAR", "APR", "MAY", "JUN", "JUL", "AUG", "SEP", "OCT", "NOV", "DEC"]

  predicate IsUpper(c: char) {
    'A' <= c <= 'Z'
  }

  /** std::toupper in the C locale. */
  function UpperChar(c: char): char {
    if 'a' <= c <= 'z' then (c as int - 32) as char else c
  }

  function Upper(s: string): (r: string)
    ensures |r| == |s| && forall i :: 0 <= i < |s| ==> r[i] == UpperChar(s[i])
  {
    if s == [] then [] else [UpperChar(s[0])] + Upper(s[1..])
  }

  /** The first position of a three-letter name, or -1. */
  function Find(text: string, name: string): (p: int)
    requires |name| == 3
    ensures p == -1 || 0 <= p <= |text| - 3
  {
    if |text| < 3 then -1
    else if text[..3] == name then 0
    else
      var q := Find(text[1..], name);
      if q == -1 then -1 else q + 1
  }

  /** The first occurrence of a name replaced by its index. */
  function ReplaceFirst(text: string, name: string, i: int): string
    requires |name| == 3 && 0 <= i
  {
    var p := Find(text, name);
    if p == -1 then text else text[..p] + Decimal(i) + text[p + 3..]
  }

  predicate ThreeLetterNames(names: seq<string>) {
    && (forall i :: 0 <= i < |names| ==> |names[i]| == 3)
    && (forall i, k :: 0 <= i < |names| && 0 <= k < 3 ==> IsUpper(names[i][k]))
    && (forall i, j :: 0 <= i < j < |names| ==> names[i] != names[j])
  }

  /** replace_ordinals for the names from index i on. */
  function ReplaceFrom(text: string, names: seq<string>, i: nat): string
    requires ThreeLetterNames(names) && i <= |names|
    decreases |names| - i
  {
    if i == |names| then text else ReplaceFrom(ReplaceFirst(text, names[i], i), names, i + 1)
  }

  method ReplaceOrdinals(text: string, replacement: seq<string>) returns (replaced: string)
    requires ThreeLetterNames(replacement)
    ensures replaced == ReplaceFrom(text, replacement, 0)
  {
    hide Find, Decimal, ThreeLetterNames, ReplaceFrom;
    replaced := text;
    for i := 0 to |replacement|
      invariant ReplaceFrom(replaced, replacement, i) == ReplaceFrom(text, replacement, 0)
    {
      NameLength(replacement, i);
      ReplaceStep(replaced, replacement, i);
      var pos := Find(replaced, replacement[i]);
      if pos != -1 {
        replaced := replaced[..pos] + Decimal(i) + replaced[pos + 3..];
      }
    }
    ReplaceStep(replaced, replacement, |replacement|);
  }

  lemma ReplaceStep(text: string, names: seq<string>, i: nat)
    requires ThreeLetterNames(names) && i <= |names|
    ensures i < |names| ==> ReplaceFrom(text, names, i) == ReplaceFrom(ReplaceFirst(text, names[i], i), names, i + 1)
    ensures i == |names| ==> ReplaceFrom(text, names, i) == text
  {
    hide ReplaceFirst;
  }

  lemma NameLength(names: seq<string>, i: nat)
    requires ThreeLetterNames(names) && i < |names|
    ensures |names[i]| == 3
  {
  }

  lemma TraitNames()
    ensures ThreeLetterNames(DAYS) && ThreeLetterNames(MONTHS)
  {
  }

  // ---------- Fields written with names ----------

  /** A piece of a field: a name, by index, or any other character. */
  datatype Piece = Name(i: int) | Other(c: char)

  /** The text of a field in which the names with index below k are written as numbers. */
  function Spelled(pieces: seq<Piece>, names: seq<string>, k: nat): string
    requires ThreeLetterNames(names) && Known(pieces, names)
  {
    if pieces == [] then []
    else
      (match pieces[0]
       case Other(c) => [c]
       case Name(i) => assert Name(i) in pieces; if i < k then Decimal(i) else names[i])
      + Spelled(pieces[1..], names, k)
  }

  predicate Known(pieces: seq<Piece>, names: seq<string>) {
    forall p :: p in pieces && p.Name? ==> 0 <= p.i < |names|
  }

  predicate StartsWith(text: string, prefix: string) {
    |prefix| <= |text| && text[..|prefix|] == prefix
  }

  /** No name begins at the start of the text. */
  predicate NoNameAt(text: string, names: seq<string>) {
    forall j :: 0 <= j < |names| ==> !StartsWith(text, names[j])
  }

  /** Each name occurs at most once as a piece, and no name occurs anywhere but as a piece: not at
      another character, and not inside a piece or across its end. */
  predicate OnlyAsPieces(pieces: seq<Piece>, names: seq<string>)
    requires ThreeLetterNames(names) && Known(pieces, names)
  {
    pieces != [] ==>
      var rest := Spelled(pieces[1..], names, 0);
      && OnlyAsPieces(pieces[1..], names)
      && match pieces[0]
         case Other(c) => NoNameAt([c] + rest, names)
         case Name(i) =>
           assert pieces[0] in pieces;
           Name(i) !in pieces[1..] && NoNameAt(names[i][1..] + rest, names) && NoNameAt(names[i][2..] + rest, names)
  }

  lemma SkipOne(text: string, name: string, i: int)
    requires |name| == 3 && 0 <= i && text != []
    requires |text| < 3 || text[..3] != name
    ensures ReplaceFirst(text, name, i) == [text[0]] + ReplaceFirst(text[1..], name, i)
  {
    hide Decimal, Find;
    var rest := text[1..];
    var p := Find(rest, name);
    FindLater(text, name);
    if p != -1 {
      assert text[..p + 1] == [text[0]] + rest[..p];
      assert text[p + 1 + 3..] == rest[p + 3..];
      assert [text[0]] + rest[..p] + Decimal(i) + rest[p + 3..] == [text[0]] + (rest[..p] + Decimal(i) + rest[p + 3..]);
    } else {
      assert text == [text[0]] + rest;
    }
  }

  lemma FindLater(text: string, name: string)
    requires |name| == 3 && text != [] && (|text| < 3 || text[..3] != name)
    ensures Find(text, name) == if Find(text[1..], name) == -1 then -1 else Find(text[1..], name) + 1
  {
  }

  /** Writing some names as numbers creates no new occurrence of a text of letters. */
  lemma {:induction false} NothingNewStarts(pieces: seq<Piece>, names: seq<string>, k: nat, w: string)
    requires ThreeLetterNames(names) && Known(pieces, names)
    requires |w| <= 3 && (forall c :: c in w ==> IsUpper(c)) && StartsWith(Spelled(pieces, names, k), w)
    ensures StartsWith(Spelled(pieces, names, 0), w)
  {
    hide Decimal;
    if w != [] {
      var s, t := Spelled(pieces, names, k), Spelled(pieces, names, 0);
      assert w[0] in w && s[..|w|][0] == w[0];
      assert pieces[0] in pieces;
      match pieces[0]
      case Other(c) =>
        var more := Spelled(pieces[1..], names, k);
        assert s[1..] == more && more[..|w| - 1] == s[..|w|][1..] == w[1..];
        NothingNewStarts(pieces[1..], names, k, w[1..]);
        assert t[..|w|] == [c] + t[1..][..|w| - 1];
        assert t[1..] == Spelled(pieces[1..], names, 0);
      case Name(i) =>
        if i < k { assert IsDigit(Decimal(i)[0]) by { assert Decimal(i)[0] in Decimal(i); } }
        assert s[..|w|] == names[i][..|w|] == t[..|w|];
    }
  }

  /** The same, seen from inside a name just before. */
  lemma NothingNewAfter(tail: string, pieces: seq<Piece>, names: seq<string>, k: nat, w: string)
    requires ThreeLetterNames(names) && Known(pieces, names)
    requires |w| == 3 && (forall c :: c in w ==> IsUpper(c)) && |tail| < 3
    requires StartsWith(tail + Spelled(pieces, names, k), w)
    ensures StartsWith(tail + Spelled(pieces, names, 0), w)
  {
    hide Spelled;
    var s, t := Spelled(pieces, names, k), Spelled(pieces, names, 0);
    var n := |tail|;
    assert (tail + s)[..3] == tail + s[..3 - n];
    assert w[..n] == tail && w[n..] == s[..3 - n];
    NothingNewStarts(pieces, names, k, w[n..]);
    assert (tail + t)[..3] == tail + t[..3 - n] == w;
  }

  /** Three characters at which the name does not start are passed over. */
  lemma SkipName(other: string, rest: string, name: string, i: int)
    requires |name| == 3 && |other| == 3 && other != name && 0 <= i
    requires !StartsWith(other[1..] + rest, name) && !StartsWith(other[2..] + rest, name)
    ensures ReplaceFirst(other + rest, name, i) == other + ReplaceFirst(rest, name, i)
  {
    hide ReplaceFirst;
    var t0 := other + rest;
    var t1, t2 := other[1..] + rest, other[2..] + rest;
    assert t0[..3] == other;
    assert t0[1..] == t1 && t1[1..] == t2 && t2[1..] == rest;
    SkipOne(t0, name, i);
    SkipOne(t1, name, i);
    SkipOne(t2, name, i);
    assert other == [t0[0]] + [t1[0]] + [t2[0]];
    assert other + ReplaceFirst(rest, name, i) == [t0[0]] + ([t1[0]] + ([t2[0]] + ReplaceFirst(rest, name, i)));
  }

  lemma {:induction false} SkipDigits(digits: string, rest: string, name: string, i: int)
    requires |name| == 3 && 0 <= i && IsUpper(name[0]) && forall c :: c in digits ==> IsDigit(c)
    ensures ReplaceFirst(digits + rest, name, i) == digits + ReplaceFirst(rest, name, i)
  {
    hide ReplaceFirst;
    if digits == [] {
      assert digits + rest == rest;
      assert digits + ReplaceFirst(rest, name, i) == ReplaceFirst(rest, name, i);
    } else {
      var text, more := digits + rest, digits[1..] + rest;
      assert digits[0] in digits;
      assert text[1..] == more;
      assert |text| >= 3 ==> text[..3][0] == digits[0];
      SkipOne(text, name, i);
      SkipDigits(digits[1..], rest, name, i);
      assert [digits[0]] + (digits[1..] + ReplaceFirst(rest, name, i)) == digits + ReplaceFirst(rest, name, i);
    }
  }

  lemma {:induction false} NotNamed(pieces: seq<Piece>, names: seq<string>, k: nat)
    requires ThreeLetterNames(names) && Known(pieces, names) && Name(k) !in pieces
    ensures Spelled(pieces, names, k) == Spelled(pieces, names, k + 1)
  {
    hide Decimal, ThreeLetterNames;
    if pieces != [] {
      assert pieces[0] in pieces;
      NotNamed(pieces[1..], names, k);
    }
  }

  /** One round of replace_ordinals writes the next name as its number, and once all are written
      it finds nothing. */
  lemma {:induction false} ReplaceOne(pieces: seq<Piece>, names: seq<string>, k: nat, j: nat)
    requires ThreeLetterNames(names) && Known(pieces, names) && OnlyAsPieces(pieces, names)
    requires j < |names| && (k == j || k == |names|)
    ensures ReplaceFirst(Spelled(pieces, names, k), names[j], j) == Spelled(pieces, names, if k == j then k + 1 else k)
  {
    hide Decimal, ReplaceFirst;
    var name := names[j];
    if pieces == [] {
      ReplaceNothing(name, j);
    } else {
      assert pieces[0] in pieces;
      var rest, start := Spelled(pieces[1..], names, k), Spelled(pieces[1..], names, 0);
      ReplaceOne(pieces[1..], names, k, j);
      match pieces[0]
      case Other(c) =>
        if StartsWith([c] + rest, name) { NothingNewAfter([c], pieces[1..], names, k, name); }
        assert ([c] + rest)[1..] == rest;
        SkipOne([c] + rest, name, j);
      case Name(i) =>
        if i < k {
          SkipDigits(Decimal(i), rest, name, j);
        } else if i > k {
          if StartsWith(names[i][1..] + rest, name) { NothingNewAfter(names[i][1..], pieces[1..], names, k, name); }
          if StartsWith(names[i][2..] + rest, name) { NothingNewAfter(names[i][2..], pieces[1..], names, k, name); }
          SkipName(names[i], rest, name, j);
        } else {
          NotNamed(pieces[1..], names, k);
          ReplaceHere(name, rest, k);
        }
    }
  }

  lemma ReplaceNothing(name: string, i: int)
    requires |name| == 3 && 0 <= i
    ensures ReplaceFirst([], name, i) == []
  {
  }

  lemma ReplaceHere(name: string, rest: string, i: int)
    requires |name| == 3 && 0 <= i
    ensures ReplaceFirst(name + rest, name, i) == Decimal(i) + rest
  {
    hide Decimal;
    var text := name + rest;
    assert text[..3] == name && text[3..] == rest && text[..0] == [];
    assert [] + Decimal(i) == Decimal(i);
  }

  /** replace_ordinals turns a field written with names into the same field written with numbers. */
  lemma {:induction false} NamesBecomeNumbers(pieces: seq<Piece>, names: seq<string>, k: nat)
    requires ThreeLetterNames(names) && Known(pieces, names) && OnlyAsPieces(pieces, names) && k <= |names|
    ensures ReplaceFrom(Spelled(pieces, names, k), names, k) == Spelled(pieces, names, |names|)
    decreases |names| - k
  {
    hide Spelled, ReplaceFirst, OnlyAsPieces;
    if k < |names| {
      ReplaceOne(pieces, names, k, k);
      NamesBecomeNumbers(pieces, names, k + 1);
    }
  }

  /** The field with numbers has no names left, so replace_ordinals leaves it alone. */
  lemma {:induction false} NumbersStay(pieces: seq<Piece>, names: seq<string>, i: nat)
    requires ThreeLetterNames(names) && Known(pieces, names) && OnlyAsPieces(pieces, names) && i <= |names|
    ensures ReplaceFrom(Spelled(pieces, names, |names|), names, i) == Spelled(pieces, names, |names|)
    decreases |names| - i
  {
    hide Spelled, ReplaceFirst, OnlyAsPieces;
    if i < |names| {
      ReplaceOne(pieces, names, |names|, i);
      NumbersStay(pieces, names, i + 1);
    }
  }

  /** Upper-casing the numeric field changes nothing that upper-casing the named field left. */
  lemma {:induction false} NumbersStayUpper(pieces: seq<Piece>, names: seq<string>)
    requires ThreeLetterNames(names) && Known(pieces, names)
    requires forall c :: c in Spelled(pieces, names, 0) ==> UpperChar(c) == c
    ensures forall c :: c in Spelled(pieces, names, |names|) ==> UpperChar(c) == c
  {
    hide Decimal;
    if pieces != [] {
      assert pieces[0] in pieces;
      NumbersStayUpper(pieces[1..], names);
    }
  }
}
