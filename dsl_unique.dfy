/**
 * Rendering identifies programs. `toString` brackets every operator, so a
 * rendering can be read back in only one way as long as variable names
 * contain no bracket, comma or space and do not look like numbers. The
 * proof reads a rendering left to right: what follows a complete program
 * inside a larger rendering is always empty or starts with ` `, `,` or `)`,
 * and no leaf text contains those characters.
 */
module DslUnique {
  import opened Dsl

  /** Characters that end a leaf: the first character of whatever can follow a program. */
  const Ends: set<char> := {' ', ',', ')'}

  /** A text holds no character from `stop`. */
  predicate Avoids(t: string, stop: set<char>) {
    forall k :: 0 <= k < |t| ==> t[k] !in stop
  }

  /** A text that may follow a complete program. */
  predicate Follow(s: string) {
    s == [] || s[0] in Ends
  }

  predicate IsDigitChar(c: char) {
    '0' <= c <= '9'
  }

  /** A variable name that reads back unambiguously. */
  predicate GoodName(name: string) {
    Avoids(name, Ends + {'('}) && (|name| > 0 ==> name[0] != '-' && !IsDigitChar(name[0]))
  }

  /** Every variable a program reads has a good name. */
  predicate Named(p: Program) {
    forall x :: x in Vars(p) ==> GoodName(x)
  }

  /** A text shorter than `b` and then a stop character (or nothing) is not `b` followed by anything. */
  lemma ShorterDiffers(a: string, c: string, b: string, d: string, stop: set<char>)
    requires Avoids(b, stop) && (c == [] || c[0] in stop) && |a| < |b|
    ensures a + c != b + d
  {
    if c == [] {
      assert |a + c| < |b + d|;
    } else {
      assert (a + c)[|a|] == c[0] && (b + d)[|a|] == b[|a|];
    }
  }

  /**
   * Two texts free of `stop`, each followed by a text that is empty or
   * starts with a character of `stop`: if the concatenations agree, so do
   * the parts.
   */
  lemma SplitAt(a: string, b: string, c: string, d: string, stop: set<char>)
    requires Avoids(a, stop) && Avoids(b, stop)
    requires (c == [] || c[0] in stop) && (d == [] || d[0] in stop)
    requires a + c == b + d
    ensures a == b && c == d
  {
    if |a| < |b| {
      ShorterDiffers(a, c, b, d, stop);
      assert false;
    } else if |b| < |a| {
      ShorterDiffers(b, d, a, c, stop);
      assert false;
    }
    assert a == (a + c)[..|a|] && b == (b + d)[..|b|];
    assert c == (a + c)[|a|..] && d == (b + d)[|b|..];
  }

  /** A common prefix cancels. */
  lemma Cancel(a: string, x: string, y: string)
    requires a + x == a + y
    ensures x == y
  {
    assert x == (a + x)[|a|..];
    assert y == (a + y)[|a|..];
  }

  // ------------------------------------------------------------ numbers

  lemma DigitCharInjective(a: Digit, b: Digit)
    requires DigitChar(a) == DigitChar(b)
    ensures a == b
  {
  }

  /** One digit exactly for numbers below ten. */
  lemma NatTextLength(n: nat)
    ensures (|NatText(n)| == 1) == (n < 10)
  {
    if n >= 10 {
      assert |NatText(n)| == |NatText(n / 10)| + 1;
    }
  }

  /** Decimal text has no leading zeros, so it names one number. */
  lemma {:induction false} NatTextInjective(n: nat, m: nat)
    requires NatText(n) == NatText(m)
    ensures n == m
  {
    NatTextLength(n);
    NatTextLength(m);
    if n < 10 {
      DigitCharInjective(n, m);
    } else {
      var a, b := NatText(n / 10), NatText(m / 10);
      assert NatText(n) == a + [DigitChar(n % 10)] && NatText(m) == b + [DigitChar(m % 10)];
      assert |a| == |b|;
      assert a == NatText(n)[..|a|] && b == NatText(m)[..|b|];
      assert NatText(n)[|a|] == DigitChar(n % 10) && NatText(m)[|b|] == DigitChar(m % 10);
      NatTextInjective(n / 10, m / 10);
      DigitCharInjective(n % 10, m % 10);
    }
  }

  lemma DigitsTextInjective(ds: seq<Digit>, es: seq<Digit>)
    requires DigitsText(ds) == DigitsText(es)
    ensures ds == es
  {
    forall k | 0 <= k < |ds| ensures ds[k] == es[k] {
      assert DigitsText(ds)[k] == DigitChar(ds[k]) && DigitsText(es)[k] == DigitChar(es[k]);
      DigitCharInjective(ds[k], es[k]);
    }
  }

  /** The text after the whole part: empty, or a point and the fraction's digits. */
  function FractionText(ds: seq<Digit>): (s: string)
    ensures s == [] <==> ds == []
    ensures s != [] ==> s[0] == '.'
    ensures Avoids(s, Ends + {'('})
  {
    if ds == [] then "" else "." + DigitsText(ds)
  }

  lemma DigitsAvoid(s: string, stop: set<char>)
    requires forall c :: c in s ==> IsDigitChar(c)
    requires forall c :: c in stop ==> !IsDigitChar(c)
    ensures Avoids(s, stop)
  {
    forall k | 0 <= k < |s| ensures s[k] !in stop {
      assert s[k] in s;
    }
  }

  /** A number's text: free of `Ends` and `(`, starting with a digit or, when negative, `-`. */
  lemma NumberShape(x: Number)
    ensures Avoids(NumberText(x), Ends + {'('})
    ensures |NumberText(x)| > 0 && (NumberText(x)[0] == '-' || IsDigitChar(NumberText(x)[0]))
    ensures NumberText(x)[0] == '-' <==> x.negative
    ensures NumberText(x) == (if x.negative then "-" else "") + (NatText(x.whole) + FractionText(x.fraction))
  {
    DigitsAvoid(NatText(x.whole), Ends + {'('});
    assert NatText(x.whole)[0] in NatText(x.whole);
  }

  /** A good variable name never reads as a number. */
  lemma NameNotNumber(name: string, x: Number)
    requires GoodName(name)
    ensures name != NumberText(x)
  {
    NumberShape(x);
  }

  /** Different constants print differently. */
  lemma NumberTextInjective(x: Number, y: Number)
    requires NumberText(x) == NumberText(y)
    ensures x == y
  {
    NumberShape(x);
    NumberShape(y);
    var a, b := NatText(x.whole), NatText(y.whole);
    var f, g := FractionText(x.fraction), FractionText(y.fraction);
    var sign := if x.negative then "-" else "";
    Cancel(sign, a + f, b + g);
    DigitsAvoid(a, {'.'});
    DigitsAvoid(b, {'.'});
    SplitAt(a, b, f, g, {'.'});
    NatTextInjective(x.whole, y.whole);
    if x.fraction != [] {
      Cancel(".", DigitsText(x.fraction), DigitsText(y.fraction));
      DigitsTextInjective(x.fraction, y.fraction);
    }
  }

  // ------------------------------------------------------------ shapes

  predicate Leaf(p: Program) {
    p.Var? || p.Num?
  }

  predicate Binary(p: Program) {
    p.Plus? || p.Minus? || p.Times? || p.Max? || p.Min?
  }

  /** The text a compound program's rendering opens with. */
  function Open(p: Program): string
    requires !Leaf(p)
  {
    match p
    case Max(_, _) => "max("
    case Min(_, _) => "min("
    case Abs(_) => "abs("
    case _ => "("
  }

  /** The text between a binary program's operands. */
  function Sep(p: Program): string
    requires Binary(p)
  {
    match p
    case Plus(_, _) => " + "
    case Minus(_, _) => " - "
    case Times(_, _) => " * "
    case _ => ", "
  }

  lemma BinaryText(p: Program)
    requires Binary(p)
    ensures ToString(p) == Open(p) + ToString(p.left) + Sep(p) + ToString(p.right) + ")"
    ensures Vars(p) == Vars(p.left) + Vars(p.right)
    ensures Size(p.left) < Size(p) && Size(p.right) < Size(p)
  {
  }

  lemma Regroup(a: string, b: string, c: string, d: string, e: string, s: string)
    ensures a + b + c + d + e + s == a + (b + (c + (d + (e + s))))
  {
  }

  lemma BinaryParts(p: Program, s: string)
    requires Binary(p)
    ensures ToString(p) + s == Open(p) + (ToString(p.left) + (Sep(p) + (ToString(p.right) + (")" + s))))
    ensures Vars(p) == Vars(p.left) + Vars(p.right)
    ensures Size(p.left) < Size(p) && Size(p.right) < Size(p)
  {
    BinaryText(p);
    Regroup(Open(p), ToString(p.left), Sep(p), ToString(p.right), ")", s);
  }

  lemma AbsParts(p: Program, s: string)
    requires p.Abs?
    ensures ToString(p) + s == Open(p) + (ToString(p.value) + (")" + s))
  {
  }

  /** Every opening text ends in `(` and holds none of `Ends`. */
  lemma OpenShape(p: Program)
    requires !Leaf(p)
    ensures |Open(p)| >= 1 && Open(p)[|Open(p)| - 1] == '(' && Avoids(Open(p), Ends)
  {
  }

  /** A compound program's rendering starts with its opening text. */
  lemma OpenStarts(p: Program, s: string)
    requires !Leaf(p)
    ensures Open(p) <= ToString(p) + s
  {
    if Binary(p) {
      BinaryParts(p, s);
    } else {
      AbsParts(p, s);
    }
  }

  /** Opening text, operator text and operands determine a binary program. */
  lemma BinaryDetermined(p: Program, q: Program)
    requires Binary(p) && Binary(q) && Open(p) == Open(q) && Sep(p) == Sep(q)
    requires p.left == q.left && p.right == q.right
    ensures p == q
  {
    if p.Max? || p.Min? || q.Max? || q.Min? {
      assert Open(p)[1] == Open(q)[1];
    } else {
      assert Sep(p)[1] == Sep(q)[1];
    }
  }

  /** Two opening texts that start the same text are the same. */
  lemma OpenDetermined(p: Program, q: Program, t: string)
    requires !Leaf(p) && !Leaf(q)
    requires Open(p) <= t && Open(q) <= t
    ensures Open(p) == Open(q)
  {
    assert Open(p)[0] == t[0] == Open(q)[0];
    if |Open(p)| == 4 && |Open(q)| == 4 {
      assert Open(p)[1] == t[1] == Open(q)[1];
    }
  }

  /** A leaf's text cannot run into the opening bracket of a compound program. */
  lemma LeafBlocked(a: string, s: string, o: string, rest: string)
    requires Avoids(a, Ends + {'('}) && Follow(s)
    requires |o| >= 1 && o[|o| - 1] == '(' && Avoids(o, Ends)
    ensures a + s != o + rest
  {
    var k := |o| - 1;
    if |a| > k {
      assert (a + s)[k] == a[k] != '(' == (o + rest)[k];
    } else if s == [] {
      assert |a + s| < |o + rest|;
    } else {
      assert (a + s)[|a|] == s[0] && (o + rest)[|a|] == o[|a|];
    }
  }

  lemma LeafText(p: Program)
    requires Leaf(p) && Named(p)
    ensures Avoids(ToString(p), Ends + {'('})
    ensures p.Var? ==> GoodName(p.name)
  {
    if p.Num? {
      NumberShape(p.n);
    } else {
      assert p.name in Vars(p);
    }
  }

  // ------------------------------------------------------------ injectivity

  /** A leaf's rendering never starts a compound program's rendering. */
  lemma LeafNotCompound(p: Program, q: Program, s1: string, s2: string)
    requires Leaf(p) && Named(p) && !Leaf(q) && Follow(s1)
    ensures ToString(p) + s1 != ToString(q) + s2
  {
    LeafText(p);
    OpenShape(q);
    if Binary(q) {
      BinaryParts(q, s2);
      LeafBlocked(ToString(p), s1, Open(q), ToString(q.left) + (Sep(q) + (ToString(q.right) + (")" + s2))));
    } else {
      AbsParts(q, s2);
      LeafBlocked(ToString(p), s1, Open(q), ToString(q.value) + (")" + s2));
    }
  }

  /** A leaf at the head of a rendering is determined, and so is what follows it. */
  lemma LeafUnique(p: Program, q: Program, s1: string, s2: string)
    requires Leaf(p) && Named(p) && Named(q) && Follow(s1) && Follow(s2)
    requires ToString(p) + s1 == ToString(q) + s2
    ensures p == q && s1 == s2
  {
    if !Leaf(q) {
      LeafNotCompound(p, q, s1, s2);
      assert false;
    }
    LeafText(p);
    LeafText(q);
    SplitAt(ToString(p), ToString(q), s1, s2, Ends);
    match p
    case Num(x) =>
      if q.Var? {
        NameNotNumber(q.name, x);
        assert false;
      }
      NumberTextInjective(x, q.n);
    case Var(name) =>
      if q.Num? {
        NameNotNumber(name, q.n);
        assert false;
      }
  }

  /**
   * Prefix injectivity: a program's rendering, followed by text that may
   * follow a program, determines both the program and the text.
   */
  lemma {:induction false} RenderPrefixUnique(p: Program, q: Program, s1: string, s2: string)
    requires Named(p) && Named(q) && Follow(s1) && Follow(s2)
    requires ToString(p) + s1 == ToString(q) + s2
    ensures p == q && s1 == s2
    decreases Size(p), 1
  {
    if Leaf(p) {
      LeafUnique(p, q, s1, s2);
    } else if Leaf(q) {
      LeafUnique(q, p, s2, s1);
    } else {
      OpenStarts(p, s1);
      OpenStarts(q, s2);
      OpenDetermined(p, q, ToString(p) + s1);
      if Binary(p) {
        BinaryUnique(p, q, s1, s2);
      } else {
        AbsUnique(p, q, s1, s2);
      }
    }
  }

  /** Two binary programs with the same opening text, at the head of one text. */
  lemma {:induction false} BinaryUnique(p: Program, q: Program, s1: string, s2: string)
    requires Binary(p) && Binary(q) && Open(p) == Open(q)
    requires Named(p) && Named(q) && Follow(s1) && Follow(s2)
    requires ToString(p) + s1 == ToString(q) + s2
    ensures p == q && s1 == s2
    decreases Size(p), 0
  {
    BinaryParts(p, s1);
    BinaryParts(q, s2);
    var t1 := Sep(p) + (ToString(p.right) + (")" + s1));
    var t2 := Sep(q) + (ToString(q.right) + (")" + s2));
    Cancel(Open(p), ToString(p.left) + t1, ToString(q.left) + t2);
    RenderPrefixUnique(p.left, q.left, t1, t2);
    assert Sep(p) == t1[..|Sep(p)|] && Sep(q) == t2[..|Sep(q)|];
    Cancel(Sep(p), ToString(p.right) + (")" + s1), ToString(q.right) + (")" + s2));
    RenderPrefixUnique(p.right, q.right, ")" + s1, ")" + s2);
    Cancel(")", s1, s2);
    BinaryDetermined(p, q);
  }

  /** Two `abs` programs at the head of one text. */
  lemma {:induction false} AbsUnique(p: Program, q: Program, s1: string, s2: string)
    requires p.Abs? && q.Abs?
    requires Named(p) && Named(q) && Follow(s1) && Follow(s2)
    requires ToString(p) + s1 == ToString(q) + s2
    ensures p == q && s1 == s2
    decreases Size(p), 0
  {
    AbsParts(p, s1);
    AbsParts(q, s2);
    Cancel(Open(p), ToString(p.value) + (")" + s1), ToString(q.value) + (")" + s2));
    assert Vars(p) == Vars(p.value) && Vars(q) == Vars(q.value);
    RenderPrefixUnique(p.value, q.value, ")" + s1, ")" + s2);
    Cancel(")", s1, s2);
  }

  /** Equal renderings mean equal programs. */
  lemma RenderUnique(p: Program, q: Program)
    requires Named(p) && Named(q)
    ensures ToString(p) == ToString(q) <==> p == q
  {
    if ToString(p) == ToString(q) {
      assert ToString(p) + "" == ToString(q) + "";
      RenderPrefixUnique(p, q, "", "");
    }
  }
}
