/** Little-endian numbers, and what it takes for a parser and a printer to be inverse. */
module Wire {
  import opened Common
  import opened Utf8

  /** The number that little-endian bytes denote. */
  function FromLe(s: Bytes): (n: nat)
    ensures n < Limit(|s|)
  {
    if s == [] then 0 else s[0] + 256 * FromLe(s[1..])
  }

  lemma OneByte(a: U8)
    ensures FromLe([a]) == a
  {
    assert [a][1..] == [];
  }

  lemma TimesAssociate(l: nat, t: nat)
    ensures 256 * (l * t) == (256 * l) * t
  {
  }

  /** The first byte counts ones, and every byte 256 times the one before. */
  lemma BytesOfNumbers(a: U8, b: U8, c: U8, d: U8)
    ensures FromLe([a, b]) == a + 0x100 * b
    ensures FromLe([a, b, c, d]) == a + 0x100 * b + 0x1_0000 * c + 0x100_0000 * d
  {
    OneByte(b);
    OneByte(d);
    assert [a, b][1..] == [b] && [c, d][1..] == [d];
    assert [a, b, c, d][1..] == [b, c, d] && [b, c, d][1..] == [c, d];
    assert FromLe([c, d]) == c + 256 * d;
    assert FromLe([b, c, d]) == b + 256 * FromLe([c, d]);
  }

  /** Eight bytes are two times four. */
  lemma {:induction false} FromLeAppend(s: Bytes, t: Bytes)
    ensures FromLe(s + t) == FromLe(s) + Limit(|s|) * FromLe(t)
  {
    if s == [] {
      assert s + t == t;
    } else {
      FromLeAppend(s[1..], t);
      TimesAssociate(Limit(|s| - 1), FromLe(t));
      assert (s + t)[0] == s[0] && (s + t)[1..] == s[1..] + t;
      assert FromLe(s + t) == s[0] + 256 * FromLe(s[1..] + t);
    }
  }

  function ToLe(n: nat, width: nat): (s: Bytes)
    ensures |s| == width
  {
    if width == 0 then [] else [n % 256] + ToLe(n / 256, width - 1)
  }

  /** One more than the largest number that fits into some bytes. */
  function Limit(width: nat): (n: nat)
    ensures n > 0
  {
    if width == 0 then 1 else 256 * Limit(width - 1)
  }

  lemma {:induction false} ReadsWhatWasWritten(n: nat, width: nat)
    requires n < Limit(width)
    ensures FromLe(ToLe(n, width)) == n
  {
    if width > 0 {
      ReadsWhatWasWritten(n / 256, width - 1);
      assert ToLe(n, width)[1..] == ToLe(n / 256, width - 1);
    }
  }

  lemma {:induction false} WritesWhatWasRead(s: Bytes)
    ensures ToLe(FromLe(s), |s|) == s
  {
    if s != [] {
      WritesWhatWasRead(s[1..]);
      assert FromLe(s) / 256 == FromLe(s[1..]) && FromLe(s) % 256 == s[0];
    }
  }

  lemma Limits()
    ensures Limit(2) == 0x1_0000 && Limit(4) == U32_LIMIT && Limit(8) == U64_MAX + 1
  {
    assert Limit(1) == 256 && Limit(3) == 0x100_0000;
    assert Limit(5) == 256 * U32_LIMIT && Limit(6) == 256 * Limit(5) && Limit(7) == 256 * Limit(6);
  }

  const U32_SIZE: nat := 4

  /** A `u32` from the front of the bytes; the rest is ignored. */
  function U32At(rest: Bytes): (n: U32)
    requires |rest| >= U32_SIZE
  {
    Limits();
    FromLe(rest[..U32_SIZE])
  }

  lemma U32AtPrinted(n: U32, post: Bytes)
    ensures U32At(ToLe(n, U32_SIZE) + post) == n && (ToLe(n, U32_SIZE) + post)[U32_SIZE..] == post
  {
    Limits();
    ReadsWhatWasWritten(n, U32_SIZE);
    assert (ToLe(n, U32_SIZE) + post)[..U32_SIZE] == ToLe(n, U32_SIZE);
  }

  lemma U32AtIsPrinted(rest: Bytes)
    requires |rest| >= U32_SIZE
    ensures rest == ToLe(U32At(rest), U32_SIZE) + rest[U32_SIZE..]
  {
    WritesWhatWasRead(rest[..U32_SIZE]);
  }

  /** A value taken from the front of some bytes, and the bytes after it. */
  type Parsed<+T> = Result<(T, Bytes)>

  /** A parser, the layout it is meant for, and the values that have this layout. */
  datatype Format<!T(!new)> = Format(parse: Bytes -> Parsed<T>, render: T -> Bytes, fits: T -> bool) {
    /** What was printed is parsed, whatever follows it. */
    ghost predicate Completes() {
      forall x: T, post: Bytes :: fits(x) ==> parse(render(x) + post) == Ok((x, post))
    }

    /** Nothing is parsed but what is printed. */
    ghost predicate Accepts(rest: Bytes) {
      parse(rest).Ok? ==>
        var (x, post) := parse(rest).value;
        fits(x) && rest == render(x) + post
    }

    ghost predicate IsExact() {
      forall rest: Bytes :: Accepts(rest)
    }

    ghost predicate RoundTrips() {
      Completes() && IsExact()
    }
  }

  function Prepended<T>(xs: seq<T>, r: Parsed<seq<T>>): Parsed<seq<T>> {
    match r
    case Err(e) => Err(e)
    case Ok((ys, post)) => Ok((xs + ys, post))
  }

  /** So many values one after another. */
  function ParseMany<T>(parse: Bytes -> Parsed<T>, rest: Bytes, count: nat): (r: Parsed<seq<T>>)
    ensures r.Ok? ==> |r.value.0| == count
    decreases count
  {
    if count == 0 then Ok(([], rest))
    else
      match parse(rest)
      case Err(e) => Err(e)
      case Ok((x, post)) => Prepended([x], ParseMany(parse, post, count - 1))
  }

  function PrintMany<T>(render: T -> Bytes, xs: seq<T>): Bytes {
    if xs == [] then [] else render(xs[0]) + PrintMany(render, xs[1..])
  }

  predicate AllFit<T>(fits: T -> bool, xs: seq<T>) {
    xs == [] || (fits(xs[0]) && AllFit(fits, xs[1..]))
  }

  /** A loop that collects values one by one still has the whole list ahead of it. */
  ghost predicate Collects<T>(parse: Bytes -> Parsed<T>, res: seq<T>, rest: Bytes, left: nat, all: Parsed<seq<T>>) {
    Prepended(res, ParseMany(parse, rest, left)) == all
  }

  lemma CollectingStarts<T>(parse: Bytes -> Parsed<T>, rest: Bytes, left: nat)
    ensures Collects(parse, [], rest, left, ParseMany(parse, rest, left))
  {
    var r := ParseMany(parse, rest, left);
    if r.Ok? {
      assert [] + r.value.0 == r.value.0;
    }
  }

  lemma CollectingGoesOn<T>(parse: Bytes -> Parsed<T>, res: seq<T>, rest: Bytes, left: nat, all: Parsed<seq<T>>)
    requires left > 0 && Collects(parse, res, rest, left, all)
    ensures match parse(rest)
            case Err(e) => all == Err(e)
            case Ok((x, post)) => Collects(parse, res + [x], post, left - 1, all)
  {
    if parse(rest).Ok? {
      var (x, post) := parse(rest).value;
      var more := ParseMany(parse, post, left - 1);
      if more.Ok? {
        assert res + ([x] + more.value.0) == res + [x] + more.value.0;
      }
    }
  }

  lemma CollectingEnds<T>(parse: Bytes -> Parsed<T>, res: seq<T>, rest: Bytes, all: Parsed<seq<T>>)
    requires Collects(parse, res, rest, 0, all)
    ensures all == Ok((res, rest))
  {
    assert res + [] == res;
  }

  lemma {:induction false} ManyComplete<T(!new)>(f: Format<T>, xs: seq<T>, post: Bytes)
    requires f.Completes() && AllFit(f.fits, xs)
    ensures ParseMany(f.parse, PrintMany(f.render, xs) + post, |xs|) == Ok((xs, post))
  {
    if xs == [] {
      assert [] + post == post;
    } else {
      var tail := PrintMany(f.render, xs[1..]);
      Regroup(f.render(xs[0]), tail, post);
      ManyComplete(f, xs[1..], post);
      assert [xs[0]] + xs[1..] == xs;
    }
  }

  lemma {:induction false} ManyExact<T(!new)>(f: Format<T>, rest: Bytes, count: nat)
    requires f.IsExact()
    ensures var r := ParseMany(f.parse, rest, count);
            r.Ok? ==> AllFit(f.fits, r.value.0) && rest == PrintMany(f.render, r.value.0) + r.value.1
    decreases count
  {
    if count == 0 {
      assert [] + rest == rest;
    } else {
      assert f.Accepts(rest);
      var first := f.parse(rest);
      if first.Ok? {
        var (x, post) := first.value;
        ManyExact(f, post, count - 1);
        var more := ParseMany(f.parse, post, count - 1);
        if more.Ok? {
          var xs := [x] + more.value.0;
          assert xs[1..] == more.value.0;
          Regroup(f.render(x), PrintMany(f.render, xs[1..]), more.value.1);
        }
      }
    }
  }

  lemma {:induction false} ManyLength<T(!new)>(f: Format<T>, width: nat, xs: seq<T>)
    requires AllFit(f.fits, xs)
    requires forall x: T :: f.fits(x) ==> |f.render(x)| >= width
    ensures |PrintMany(f.render, xs)| >= |xs| * width
  {
    if xs != [] {
      ManyLength(f, width, xs[1..]);
    }
  }

  /** A list that starts with its length. Values of a fixed width are only read if all of them
      can be there. */
  function ParseCounted<T>(parse: Bytes -> Parsed<T>, width: nat, rest: Bytes): Parsed<seq<T>> {
    if |rest| < U32_SIZE then Err(Decode)
    else if |rest| - U32_SIZE < U32At(rest) * width then Err(Decode)
    else ParseMany(parse, rest[U32_SIZE..], U32At(rest))
  }

  function PrintCounted<T>(render: T -> Bytes, xs: seq<T>): Bytes {
    ToLe(|xs|, U32_SIZE) + PrintMany(render, xs)
  }

  predicate CountedFits<T>(fits: T -> bool, xs: seq<T>) {
    |xs| < U32_LIMIT && AllFit(fits, xs)
  }

  lemma CountedCompletes<T(!new)>(f: Format<T>, width: nat, xs: seq<T>, post: Bytes)
    requires f.Completes() && CountedFits(f.fits, xs)
    requires forall x: T :: f.fits(x) ==> |f.render(x)| >= width
    ensures ParseCounted(f.parse, width, PrintCounted(f.render, xs) + post) == Ok((xs, post))
  {
    var body := PrintMany(f.render, xs);
    Regroup(ToLe(|xs|, U32_SIZE), body, post);
    U32AtPrinted(|xs|, body + post);
    ManyLength(f, width, xs);
    ManyComplete(f, xs, post);
  }

  lemma CountedIsExact<T(!new)>(f: Format<T>, width: nat, rest: Bytes)
    requires f.IsExact()
    ensures var r := ParseCounted(f.parse, width, rest);
            r.Ok? ==> CountedFits(f.fits, r.value.0) && rest == PrintCounted(f.render, r.value.0) + r.value.1
  {
    var r := ParseCounted(f.parse, width, rest);
    if r.Ok? {
      ManyExact(f, rest[U32_SIZE..], U32At(rest));
      U32AtIsPrinted(rest);
      Regroup(ToLe(U32At(rest), U32_SIZE), PrintMany(f.render, r.value.0), r.value.1);
    }
  }
}
