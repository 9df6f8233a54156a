/**
  The navigation-list formatter: every link found under a navigation element is
  rewritten as a flat `<a>` element whose classes carry its nesting depth, and the
  rewritten links are joined into one HTML string.
*/
module NavList {
  import opened Wrappers

  /** One `<a>` element under the navigation element, as the formatter sees it: the number
      of `<li>` elements enclosing it, its `href` and `target` attributes (absent when the
      element has none) and its text content. */
  datatype Link = Link(liAncestors: nat, href: Option<string>, target: Option<string>, text: string)

  /** The indentation level of a link: one less than its number of enclosing `<li>`
      elements, and never below zero. */
  function Depth(liAncestors: nat): (r: nat)
    ensures liAncestors > 0 ==> r + 1 == liAncestors
    ensures liAncestors == 0 ==> r == 0
  {
    var d := liAncestors - 1;
    if d < 0 then 0 else d
  }

  /** An attribute is written out only when it is defined and not the empty string. */
  predicate Present(v: Option<string>) {
    v.Some? && v.value != ""
  }

  /** ` name="value"` for a present attribute, nothing otherwise. */
  function Attribute(name: string, v: Option<string>): (r: string)
    ensures r == [] <==> !Present(v)
    ensures Present(v) ==> StripPrefix(r, AttributeKey(name)) == Some(v.value + "\"")
  {
    if Present(v) then StripPrefixOf(AttributeKey(name), v.value + "\""); AttributeKey(name) + (v.value + "\"") else ""
  }

  /** What an attribute is written with before its value. */
  function AttributeKey(name: string): string {
    " " + name + "=\""
  }

  // ---------------------------------------------------------------------------
  // Decimal rendering of the depth, as JavaScript's number-to-string does for
  // non-negative integers.

  function Digit(d: nat): char
    requires d < 10
  {
    ('0' as int + d) as char
  }

  function NatToString(n: nat): string {
    if n < 10 then [Digit(n)] else NatToString(n / 10) + [Digit(n % 10)]
  }

  predicate IsDecimal(s: string) {
    |s| > 0 && forall i :: 0 <= i < |s| ==> '0' <= s[i] <= '9'
  }

  function ParseNat(s: string): nat
    requires IsDecimal(s) || s == []
  {
    if s == [] then 0
    else
      assert IsDecimal(s[..|s| - 1]) || s[..|s| - 1] == [];
      ParseNat(s[..|s| - 1]) * 10 + (s[|s| - 1] as int - '0' as int)
  }

  /** Decimal rendering is a string of digits that reads back as the same number. */
  lemma {:induction false} NatToStringRoundTrip(n: nat)
    ensures IsDecimal(NatToString(n))
    ensures ParseNat(NatToString(n)) == n
  {
    var s := NatToString(n);
    if n >= 10 {
      NatToStringRoundTrip(n / 10);
      assert s[..|s| - 1] == NatToString(n / 10);
    }
  }

  // ---------------------------------------------------------------------------
  // The formatter.

  /** The HTML written for one link: the depth appears twice, once in the `depth-`
      class of the link and once in the `indent-` class of the indentation span. */
  function Fragment(l: Link): (r: string)
    ensures StripPrefix(r, "<a class=\"link depth-").Some?
    ensures StripSuffix(r, l.text + "</a>").Some?
  {
    var n := NatToString(Depth(l.liAncestors));
    var head := "<a class=\"link depth-";
    var closing := l.text + "</a>";
    var s1 := Attribute("href", l.href) + IndentedText(n, l.text);
    var s2 := Attribute("target", l.target) + s1;
    var rest := n + ("\"" + s2);
    IndentedTextEnds(n, l.text);
    SuffixExtend(Attribute("href", l.href), IndentedText(n, l.text), closing);
    SuffixExtend(Attribute("target", l.target), s1, closing);
    SuffixExtend("\"", s2, closing);
    SuffixExtend(n, "\"" + s2, closing);
    SuffixExtend(head, rest, closing);
    StripPrefixOf(head, rest);
    head + rest
  }

  lemma IndentedTextEnds(n: string, text: string)
    ensures StripSuffix(IndentedText(n, text), text + "</a>").Some?
  {
    var p := text + "</a>";
    var x := "><span class=\"indent-" + (n + ("\"" + "></span>"));
    assert IndentedText(n, text) == x + p;
    StripSuffixOf(x, p);
  }

  lemma SuffixExtend(a: string, b: string, p: string)
    requires StripSuffix(b, p).Some?
    ensures StripSuffix(a + b, p).Some?
  {
    assert (a + b)[|a + b| - |p|..] == b[|b| - |p|..];
  }

  /** The rest of a fragment after its attributes: the end of the opening tag, the
      indentation span, the text and the closing tag. */
  function IndentedText(n: string, text: string): string {
    "><span class=\"indent-" + (n + ("\"" + ("></span>" + (text + "</a>"))))
  }

  /** `Array.prototype.join('')`: the parts concatenated in order. */
  function Join(parts: seq<string>): string {
    if parts == [] then "" else Join(parts[..|parts| - 1]) + parts[|parts| - 1]
  }

  /** The formatter's output, specified link by link: the fragments of the links, in order. */
  function Render(links: seq<Link>): string {
    if links == [] then "" else Render(links[..|links| - 1]) + Fragment(links[|links| - 1])
  }

  /** Joining the fragments of the links one by one gives the rendering of the links. */
  lemma {:induction false} JoinFragments(parts: seq<string>, links: seq<Link>)
    requires |parts| == |links|
    requires forall i :: 0 <= i < |links| ==> parts[i] == Fragment(links[i])
    ensures Join(parts) == Render(links)
  {
    if links != [] {
      JoinFragments(parts[..|parts| - 1], links[..|links| - 1]);
    }
  }

  /** The formatter: collects one fragment per link into an array, then joins it. */
  method NavList(links: seq<Link>) returns (html: string)
    ensures html == Render(links)
  {
    var b: seq<string> := [];
    for k := 0 to |links|
      invariant |b| == k
      invariant forall i :: 0 <= i < k ==> b[i] == Fragment(links[i])
    {
      b := b + [Fragment(links[k])];
    }
    JoinFragments(b, links);
    html := Join(b);
  }

  lemma {:induction false} JoinAppend(a: seq<string>, b: seq<string>)
    ensures Join(a + b) == Join(a) + Join(b)
  {
    if b == [] {
      assert a + b == a;
    } else {
      var c := a + b;
      var b' := b[..|b| - 1];
      assert c[..|c| - 1] == a + b';
      assert c[|c| - 1] == b[|b| - 1];
      JoinAppend(a, b');
      assert Join(c) == Join(a) + Join(b') + b[|b| - 1];
    }
  }

  /** The fragments of the links, in order. */
  function Fragments(links: seq<Link>): (r: seq<string>)
    ensures |r| == |links| && forall i :: 0 <= i < |links| ==> r[i] == Fragment(links[i])
  {
    seq(|links|, i requires 0 <= i < |links| => Fragment(links[i]))
  }

  /** The output for a list of links is the output for its first part followed by the
      output for the rest: nothing is written between or around the fragments. */
  lemma RenderAppend(xs: seq<Link>, ys: seq<Link>)
    ensures Render(xs + ys) == Render(xs) + Render(ys)
  {
    var a, b := Fragments(xs), Fragments(ys);
    JoinFragments(a, xs);
    JoinFragments(b, ys);
    JoinFragments(a + b, xs + ys);
    JoinAppend(a, b);
  }

  // ---------------------------------------------------------------------------
  // Reading a fragment back: the inverse of Fragment, used to show what each
  // fragment carries.

  /** What a fragment says about its link: the depth, the attributes written and the text. */
  datatype Parsed = Parsed(depth: nat, target: Option<string>, href: Option<string>, text: string)

  /** The value of an attribute as written into a fragment. */
  function Shown(v: Option<string>): Option<string> {
    if Present(v) then v else None
  }

  function StripPrefix(s: string, p: string): (r: Option<string>)
    ensures r.Some? ==> s == p + r.value
  {
    if p <= s then Some(s[|p|..]) else None
  }

  function StripSuffix(s: string, p: string): (r: Option<string>)
    ensures r.Some? ==> s == r.value + p
  {
    if |p| <= |s| && s[|s| - |p|..] == p then Some(s[..|s| - |p|]) else None
  }

  /** Splits at the first double quote. */
  function SplitAtQuote(s: string): (r: Option<(string, string)>)
    ensures r.Some? ==> s == r.value.0 + "\"" + r.value.1 && '"' !in r.value.0
  {
    if s == [] then None
    else if s[0] == '"' then Some(([], s[1..]))
    else
      match SplitAtQuote(s[1..])
      case None => None
      case Some((a, b)) => Some(([s[0]] + a, b))
  }

  lemma {:induction false} SplitAtQuoteOf(v: string, rest: string)
    requires '"' !in v
    ensures SplitAtQuote(v + ("\"" + rest)) == Some((v, rest))
  {
    var s := v + ("\"" + rest);
    if v == [] {
      assert s == "\"" + rest;
    } else {
      assert s[0] == v[0] && s[1..] == v[1..] + ("\"" + rest);
      SplitAtQuoteOf(v[1..], rest);
      assert [v[0]] + v[1..] == v;
    }
  }

  /** Reads an optional ` name="value"` at the front of `s`. */
  function ParseAttribute(s: string, name: string): Option<(Option<string>, string)> {
    match StripPrefix(s, AttributeKey(name))
    case None => Some((None, s))
    case Some(after) =>
      match SplitAtQuote(after)
      case None => None
      case Some((v, rest)) => Some((Some(v), rest))
  }

  function ParseFragment(s: string): Option<Parsed> {
    var r1 :- StripPrefix(s, "<a class=\"link depth-");
    var split1 :- SplitAtQuote(r1);
    var attr1 :- ParseAttribute(split1.1, "target");
    var attr2 :- ParseAttribute(attr1.1, "href");
    ParseIndentedText(split1.0, attr1.0, attr2.0, attr2.1)
  }

  /** Reads the part written by IndentedText, checking that the indentation level is the
      same decimal number as the depth class. */
  function ParseIndentedText(depth: string, target: Option<string>, href: Option<string>, s: string): Option<Parsed> {
    var r2 :- StripPrefix(s, "><span class=\"indent-");
    var split2 :- SplitAtQuote(r2);
    var r3 :- StripPrefix(split2.1, "></span>");
    var text :- StripSuffix(r3, "</a>");
    if IsDecimal(depth) && depth == split2.0 then Some(Parsed(ParseNat(depth), target, href, text))
    else None
  }

  lemma StripPrefixOf(p: string, x: string)
    ensures StripPrefix(p + x, p) == Some(x)
  {
    assert p <= p + x;
    assert (p + x)[|p|..] == x;
  }

  lemma StripSuffixOf(x: string, p: string)
    ensures StripSuffix(x + p, p) == Some(x)
  {
    assert (x + p)[|x|..] == p;
    assert (x + p)[..|x|] == x;
  }

  lemma ParseAttributeOf(name: string, v: Option<string>, rest: string)
    requires Present(v) ==> '"' !in v.value
    requires !(AttributeKey(name) <= rest)
    ensures ParseAttribute(Attribute(name, v) + rest, name) == Some((Shown(v), rest))
  {
    var key := AttributeKey(name);
    if Present(v) {
      Assoc(key, v.value, "\"", rest);
      StripPrefixOf(key, v.value + ("\"" + rest));
      SplitAtQuoteOf(v.value, rest);
    } else {
      assert Attribute(name, v) + rest == rest;
    }
  }

  lemma Assoc(a: string, b: string, c: string, d: string)
    ensures a + (b + c) + d == a + (b + (c + d))
  {
  }

  lemma IndentedTextRoundTrip(n: string, target: Option<string>, href: Option<string>, text: string)
    requires IsDecimal(n) && '"' !in n
    ensures ParseIndentedText(n, target, href, IndentedText(n, text)) == Some(Parsed(ParseNat(n), target, href, text))
  {
    var r3 := text + "</a>";
    var afterIndent := "></span>" + r3;
    var r2 := n + ("\"" + afterIndent);
    StripPrefixOf("><span class=\"indent-", r2);
    SplitAtQuoteOf(n, afterIndent);
    StripPrefixOf("></span>", r3);
    StripSuffixOf(text, "</a>");
  }

  /** Each fragment carries exactly its link's depth, in both places it is written, its
      `target` and `href` attributes exactly when they are defined and non-empty, and its
      text. Attribute values are written without escaping, so this holds for values
      without a double quote. */
  lemma FragmentRoundTrip(l: Link)
    requires Present(l.target) ==> '"' !in l.target.value
    requires Present(l.href) ==> '"' !in l.href.value
    ensures ParseFragment(Fragment(l)) ==
              Some(Parsed(Depth(l.liAncestors), Shown(l.target), Shown(l.href), l.text))
  {
    var n := NatToString(Depth(l.liAncestors));
    NatToStringRoundTrip(Depth(l.liAncestors));
    assert '"' !in n;
    var tail := IndentedText(n, l.text);
    var afterTarget := Attribute("href", l.href) + tail;
    var afterDepth := Attribute("target", l.target) + afterTarget;
    StripPrefixOf("<a class=\"link depth-", n + ("\"" + afterDepth));
    SplitAtQuoteOf(n, afterDepth);
    assert afterTarget[1] == 'h' || afterTarget[0] == '>';
    ParseAttributeOf("target", l.target, afterTarget);
    assert tail[0] == '>';
    ParseAttributeOf("href", l.href, tail);
    IndentedTextRoundTrip(n, Shown(l.target), Shown(l.href), l.text);
  }
}
