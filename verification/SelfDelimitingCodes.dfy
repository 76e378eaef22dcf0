/** Injective text encodings, put together from parts: each code can be read off the front of a longer text. */
module SelfDelimitingCodes {
  import opened Foundations

  predicate Splits<T(==)>(enc: T -> string, a: T, b: T, x: string, y: string) {
    enc(a) + x == enc(b) + y ==> a == b && x == y
  }

  ghost predicate IsCode<T(!new)>(enc: T -> string) {
    forall a, b, x, y :: Splits(enc, a, b, x, y)
  }

  predicate SameImage<A(==), B(==)>(view: A -> B, a: A, b: A) {
    view(a) == view(b) ==> a == b
  }

  ghost predicate IsInjective<A(!new), B(!new)>(view: A -> B) {
    forall a, b :: SameImage(view, a, b)
  }

  lemma CodeIsInjective<T(!new)>(enc: T -> string)
    requires IsCode(enc)
    ensures IsInjective(enc)
  {
    forall a, b ensures SameImage(enc, a, b) {
      assert Splits(enc, a, b, "", "");
      assert enc(a) + "" == enc(a) && enc(b) + "" == enc(b);
    }
  }

  // ---------------------------------------------------------------- parts

  function Lists<T>(enc: T -> string, items: seq<T>): string {
    if items == [] then "0" else "1" + enc(items[0]) + Lists(enc, items[1..])
  }

  function ListCode<T>(enc: T -> string): seq<T> -> string {
    items => Lists(enc, items)
  }

  lemma {:induction false} ListsSplit<T(!new)>(enc: T -> string, a: seq<T>, b: seq<T>, x: string, y: string)
    requires IsCode(enc) && Lists(enc, a) + x == Lists(enc, b) + y
    ensures a == b && x == y
  {
    var s, t := Lists(enc, a) + x, Lists(enc, b) + y;
    assert s[0] == Lists(enc, a)[0] && t[0] == Lists(enc, b)[0];
    if a == [] {
      assert s[1..] == x && t[1..] == y;
    } else {
      assert s[1..] == enc(a[0]) + (Lists(enc, a[1..]) + x);
      assert t[1..] == enc(b[0]) + (Lists(enc, b[1..]) + y);
      assert Splits(enc, a[0], b[0], Lists(enc, a[1..]) + x, Lists(enc, b[1..]) + y);
      ListsSplit(enc, a[1..], b[1..], x, y);
      assert a == [a[0]] + a[1..] && b == [b[0]] + b[1..];
    }
  }

  lemma ListIsCode<T(!new)>(enc: T -> string)
    requires IsCode(enc)
    ensures IsCode(ListCode(enc))
  {
    forall a, b, x, y ensures Splits(ListCode(enc), a, b, x, y) {
      if ListCode(enc)(a) + x == ListCode(enc)(b) + y {
        ListsSplit(enc, a, b, x, y);
      }
    }
  }

  function CharCode(ch: char): string {
    [ch]
  }

  function StringCode(): string -> string {
    ListCode(CharCode)
  }

  lemma StringIsCode()
    ensures IsCode(StringCode())
  {
    forall a, b, x, y ensures Splits(CharCode, a, b, x, y) {
      assert (CharCode(a) + x)[0] == a && (CharCode(b) + y)[0] == b;
      assert (CharCode(a) + x)[1..] == x && (CharCode(b) + y)[1..] == y;
    }
    ListIsCode(CharCode);
  }

  function PairCode<A, B>(first: A -> string, second: B -> string): ((A, B)) -> string {
    (p: (A, B)) => first(p.0) + second(p.1)
  }

  lemma PairIsCode<A(!new), B(!new)>(first: A -> string, second: B -> string)
    requires IsCode(first) && IsCode(second)
    ensures IsCode(PairCode(first, second))
  {
    forall a, b, x, y ensures Splits(PairCode(first, second), a, b, x, y) {
      if PairCode(first, second)(a) + x == PairCode(first, second)(b) + y {
        assert first(a.0) + second(a.1) + x == first(a.0) + (second(a.1) + x);
        assert first(b.0) + second(b.1) + y == first(b.0) + (second(b.1) + y);
        assert Splits(first, a.0, b.0, second(a.1) + x, second(b.1) + y);
        assert Splits(second, a.1, b.1, x, y);
      }
    }
  }

  function OptionCode<T>(enc: T -> string): Option<T> -> string {
    (o: Option<T>) => Lists(enc, if o.Some? then [o.value] else [])
  }

  lemma OptionIsCode<T(!new)>(enc: T -> string)
    requires IsCode(enc)
    ensures IsCode(OptionCode(enc))
  {
    forall a, b, x, y ensures Splits(OptionCode(enc), a, b, x, y) {
      if OptionCode(enc)(a) + x == OptionCode(enc)(b) + y {
        var s, t := if a.Some? then [a.value] else [], if b.Some? then [b.value] else [];
        ListsSplit(enc, s, t, x, y);
        assert |s| == |t| && (s != [] ==> s[0] == t[0]);
      }
    }
  }

  function Via<A, B>(view: A -> B, enc: B -> string): A -> string {
    a => enc(view(a))
  }

  lemma ViaIsCode<A(!new), B(!new)>(view: A -> B, enc: B -> string)
    requires IsInjective(view) && IsCode(enc)
    ensures IsCode(Via(view, enc))
  {
    forall a, b, x, y ensures Splits(Via(view, enc), a, b, x, y) {
      assert Splits(enc, view(a), view(b), x, y) && SameImage(view, a, b);
    }
  }

  /** A sign and that many strokes. */
  function Strokes(i: int): (bool, seq<bool>) {
    (i < 0, seq(if i < 0 then -i else i, j => true))
  }

  function BoolView(b: bool): string {
    if b then "1" else "0"
  }

  function BoolCode(): bool -> string {
    Via(BoolView, StringCode())
  }

  lemma BoolIsCode()
    ensures IsCode(BoolCode())
  {
    StringIsCode();
    forall a, b ensures SameImage(BoolView, a, b) {
    }
    ViaIsCode(BoolView, StringCode());
  }

  function IntCode(): int -> string {
    Via(Strokes, PairCode(BoolCode(), ListCode(BoolCode())))
  }

  lemma IntIsCode()
    ensures IsCode(IntCode())
  {
    BoolIsCode();
    ListIsCode(BoolCode());
    PairIsCode(BoolCode(), ListCode(BoolCode()));
    forall a, b ensures SameImage(Strokes, a, b) {
      assert |Strokes(a).1| == if a < 0 then -a else a;
      assert |Strokes(b).1| == if b < 0 then -b else b;
    }
    ViaIsCode(Strokes, PairCode(BoolCode(), ListCode(BoolCode())));
  }

  lemma TextListsAreCode()
    ensures IsCode(ListCode(StringCode())) && IsCode(ListCode(ListCode(StringCode())))
  {
    StringIsCode();
    ListIsCode(StringCode());
    ListIsCode(ListCode(StringCode()));
  }

  /** An optional text as a list. */
  function Texts(text: Option<string>): seq<string> {
    if text.Some? then [text.value] else []
  }
}
