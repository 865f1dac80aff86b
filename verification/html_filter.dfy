/**
 * The HTML allow-list sanitiser (`filterSync` and `filterEscapeSync`) over
 * an abstract document tree. Parsing the markup and serialising the result
 * are external and appear as function parameters.
 */
module HtmlFilter {
  import opened JsValues
  import opened Strings
  import opened HtmlStyle

  datatype Attr = Attr(name: string, value: string)

  /** A DOM node: an element, a text node, or any other node (comments, ...). */
  datatype Node =
    | Text(text: string)
    | Other(data: string)
    | Element(name: string, attrs: seq<Attr>, children: seq<Node>)

  /** `filterSync` removes disallowed elements; `filterEscapeSync` escapes them. */
  datatype Mode = Remove | Escape

  /** `allowedTags` (tag name to allowed attribute names) and `allowedStyles`. */
  datatype Policy = Policy(tags: map<string, seq<string>>, styles: seq<string>)

  /** `isElement`: only element nodes are filtered; every other node is left alone. */
  predicate IsElement(n: Node) {
    n.Element?
  }

  predicate IsUrlAttr(name: string) {
    name == "href" || name == "src"
  }

  /**
   * True when a URL attribute value names a script scheme. The remove mode
   * strips all surrounding whitespace before lower-casing; the escape mode
   * only lower-cases.
   */
  predicate IsScriptUrl(mode: Mode, value: string) {
    var v := if mode == Remove then Lower(StripAll(value)) else Lower(value);
    IndexOf(v, "javascript:") == 0 || IndexOf(v, "vbscript:") == 0
  }

  /** True when some allowed `href`/`src` attribute makes the element be unwrapped. */
  predicate Unwraps(mode: Mode, allowed: seq<string>, attrs: seq<Attr>) {
    exists i :: 0 <= i < |attrs| && attrs[i].name in allowed
      && IsUrlAttr(attrs[i].name) && IsScriptUrl(mode, attrs[i].value)
  }

  /**
   * The attributes left on an allowed element: those not on its list are
   * dropped and `style` is filtered; the others are kept as they are.
   */
  function RewriteAttrs(allowed: seq<string>, styles: seq<string>, attrs: seq<Attr>): (r: seq<Attr>)
    ensures |r| <= |attrs|
    ensures forall i :: 0 <= i < |r| ==> r[i].name in allowed
    ensures forall i :: 0 <= i < |r| && r[i].name != "style" ==> r[i] in attrs
    ensures forall i :: 0 <= i < |r| && r[i].name == "style" ==>
              FilterStyle(r[i].value, styles) == r[i].value
    ensures forall i :: 0 <= i < |attrs| && attrs[i].name in allowed && attrs[i].name != "style" ==>
              attrs[i] in r
    ensures forall i :: 0 <= i < |attrs| && attrs[i].name == "style" && "style" in allowed ==>
              Attr("style", FilterStyle(attrs[i].value, styles)) in r
  {
    if |attrs| == 0 then []
    else
      var a := attrs[0];
      var rest := RewriteAttrs(allowed, styles, attrs[1..]);
      if a.name !in allowed then rest
      else if IsUrlAttr(a.name) then [a] + rest
      else if a.name == "style" then
        FilterStyleIdempotent(a.value, styles);
        [Attr("style", FilterStyle(a.value, styles))] + rest
      else [a] + rest
  }

  /**
   * Attributes are handled one at a time and in place, so the rewrite
   * distributes over concatenation: survivors keep their order and count.
   */
  lemma {:induction false} RewriteAttrsAppend(allowed: seq<string>, styles: seq<string>, a: seq<Attr>, b: seq<Attr>)
    ensures RewriteAttrs(allowed, styles, a + b)
            == RewriteAttrs(allowed, styles, a) + RewriteAttrs(allowed, styles, b)
    decreases |a|
  {
    if |a| == 0 {
      assert a + b == b;
    } else {
      var x, t := a[0], a[1..];
      var hd := RewriteAttrs(allowed, styles, [x]);
      calc {
        RewriteAttrs(allowed, styles, a + b);
        { assert a + b == [x] + (t + b); }
        RewriteAttrs(allowed, styles, [x] + (t + b));
        { RewriteAttrsCons(allowed, styles, x, t + b); }
        hd + RewriteAttrs(allowed, styles, t + b);
        { RewriteAttrsAppend(allowed, styles, t, b); }
        hd + (RewriteAttrs(allowed, styles, t) + RewriteAttrs(allowed, styles, b));
        (hd + RewriteAttrs(allowed, styles, t)) + RewriteAttrs(allowed, styles, b);
        { assert a == [x] + t; RewriteAttrsCons(allowed, styles, x, t); }
        RewriteAttrs(allowed, styles, a) + RewriteAttrs(allowed, styles, b);
      }
    }
  }

  lemma RewriteAttrsCons(allowed: seq<string>, styles: seq<string>, x: Attr, t: seq<Attr>)
    ensures RewriteAttrs(allowed, styles, [x] + t)
            == RewriteAttrs(allowed, styles, [x]) + RewriteAttrs(allowed, styles, t)
  {
    assert ([x] + t)[0] == x && ([x] + t)[1..] == t;
    assert [x][1..] == [];
  }

  /**
   * One attribute is dropped when not on the list, kept with a filtered
   * value when it is `style`, and kept unchanged otherwise.
   */
  lemma RewriteAttrsSingle(allowed: seq<string>, styles: seq<string>, a: Attr)
    ensures RewriteAttrs(allowed, styles, [a])
            == if a.name !in allowed then []
               else if a.name == "style" then [Attr("style", FilterStyle(a.value, styles))]
               else [a]
  {
    assert [a][1..] == [];
  }

  /**
   * `filterNode`: the nodes that take the place of `n` among its siblings.
   * Children are filtered first; a disallowed element, or an allowed one
   * with a script URL, is unwrapped (`reparent`), except that the escape
   * mode replaces a disallowed element by its markers around its children
   * (`escapeNode`).
   */
  function FilterNode(mode: Mode, p: Policy, n: Node): seq<Node>
    decreases n
  {
    match n
    case Text(_) => [n]
    case Other(_) => [n]
    case Element(name, attrs, kids) =>
      var kids' := FilterList(mode, p, kids);
      var tag := Lower(name);
      if tag in p.tags then
        if Unwraps(mode, p.tags[tag], attrs) then kids'
        else [Element(name, RewriteAttrs(p.tags[tag], p.styles, attrs), kids')]
      else if mode == Remove then kids'
      else [Text("<" + tag + ">")] + kids' + [Text("</" + tag + ">")]
  }

  /** `depthFirstForEach(list, filterNode)`, as the rewrite of a sibling list. */
  function FilterList(mode: Mode, p: Policy, ns: seq<Node>): seq<Node>
    decreases ns
  {
    if |ns| == 0 then [] else FilterNode(mode, p, ns[0]) + FilterList(mode, p, ns[1..])
  }

  /** The sibling list `ns` with the node at `i` replaced by `replacement`. */
  function Splice(ns: seq<Node>, i: nat, replacement: seq<Node>): seq<Node>
    requires i < |ns|
  {
    ns[..i] + replacement + ns[i + 1..]
  }

  lemma FilterListStep(mode: Mode, p: Policy, ns: seq<Node>, i: nat)
    requires i < |ns|
    ensures FilterList(mode, p, ns[i..]) == FilterNode(mode, p, ns[i]) + FilterList(mode, p, ns[i + 1..])
  {
    assert ns[i..][0] == ns[i];
    assert ns[i..][1..] == ns[i + 1..];
  }

  /**
   * `depthFirstForEach(list, filterNode)` on a live child list: it visits
   * the positions from the last down to the first, and each visit splices
   * the node's replacement in place. Spliced-in nodes lie at or after the
   * current position, so no node is visited twice.
   */
  method DepthFirstForEach(mode: Mode, p: Policy, ns: seq<Node>) returns (out: seq<Node>)
    ensures out == FilterList(mode, p, ns)
  {
    out := ns;
    var i := |ns|;
    while i > 0
      invariant 0 <= i <= |ns|
      invariant out == ns[..i] + FilterList(mode, p, ns[i..])
    {
      i := i - 1;
      var rest := FilterList(mode, p, ns[i + 1..]);
      assert out == ns[..i] + [ns[i]] + rest by {
        assert ns[..i + 1] == ns[..i] + [ns[i]];
      }
      assert out[..i] == ns[..i] && out[i] == ns[i] && out[i + 1..] == rest;
      out := Splice(out, i, FilterNode(mode, p, out[i]));
      FilterListStep(mode, p, ns, i);
      assert out == ns[..i] + (FilterNode(mode, p, ns[i]) + rest);
    }
    assert ns[0..] == ns;
  }

  /** The script-scheme test is a case-insensitive prefix test. */
  lemma ScriptUrlIsPrefix(mode: Mode, value: string)
    ensures var v := if mode == Remove then Lower(StripAll(value)) else Lower(value);
            IsScriptUrl(mode, value) <==> "javascript:" <= v || "vbscript:" <= v
  {
    var v := if mode == Remove then Lower(StripAll(value)) else Lower(value);
    IndexOfZeroIsPrefix(v, "javascript:");
    IndexOfZeroIsPrefix(v, "vbscript:");
  }

  /**
   * Only the remove mode strips whitespace before the scheme test: a link to
   * " JavaScript:x" is unwrapped there and kept by the escape mode.
   */
  lemma ScriptUrlModesDiffer()
    ensures IsScriptUrl(Remove, " JavaScript:x")
    ensures !IsScriptUrl(Escape, " JavaScript:x")
  {
    var value := " JavaScript:x";
    StripExample();
    LowerExample();
    ScriptUrlIsPrefix(Remove, value);
    ScriptUrlIsPrefix(Escape, value);
    assert Lower(value)[0] == ' ';
  }

  lemma StripExample()
    ensures StripAll(" JavaScript:x") == "JavaScript:x"
  {
    var value := " JavaScript:x";
    assert IsSpace(value[0]) && !IsSpace(value[1]);
    assert SkipSpaces(value, 1) == 1;
    assert SkipSpaces(value, 0) == 1;
    assert !IsSpace(value[|value| - 1]);
    assert SkipSpacesBack(value, 1, |value|) == |value|;
    assert value[1..] == "JavaScript:x";
  }

  lemma LowerExample()
    ensures "javascript:" <= Lower("JavaScript:x")
  {
    var l := Lower("JavaScript:x");
    assert l[0] == 'j' && l[1] == 'a' && l[2] == 'v' && l[3] == 'a';
    assert l[4] == 's' && l[5] == 'c' && l[6] == 'r' && l[7] == 'i';
    assert l[8] == 'p' && l[9] == 't' && l[10] == ':';
    assert l[..11] == "javascript:";
  }

  /** A non-element node is left in place, unchanged. */
  lemma NonElementUntouched(mode: Mode, p: Policy, n: Node)
    requires !IsElement(n)
    ensures FilterNode(mode, p, n) == [n]
  {
  }

  /** The remove mode unwraps a disallowed element: its filtered children take its place. */
  lemma DisallowedUnwrapped(p: Policy, name: string, attrs: seq<Attr>, kids: seq<Node>)
    requires Lower(name) !in p.tags
    ensures FilterNode(Remove, p, Element(name, attrs, kids)) == FilterList(Remove, p, kids)
  {
  }

  /**
   * The escape mode replaces a disallowed element by a `<name>` text marker,
   * its filtered children and a `</name>` marker, the name lower-cased.
   */
  lemma DisallowedEscaped(p: Policy, name: string, attrs: seq<Attr>, kids: seq<Node>)
    requires Lower(name) !in p.tags
    ensures FilterNode(Escape, p, Element(name, attrs, kids)) ==
              [Text("<" + Lower(name) + ">")] + FilterList(Escape, p, kids) + [Text("</" + Lower(name) + ">")]
  {
  }

  /** An allowed element carrying an allowed script URL is unwrapped, in both modes. */
  lemma ScriptUrlUnwraps(mode: Mode, p: Policy, name: string, attrs: seq<Attr>, kids: seq<Node>, i: nat)
    requires Lower(name) in p.tags && i < |attrs|
    requires attrs[i].name in p.tags[Lower(name)] && IsUrlAttr(attrs[i].name)
    ensures IsScriptUrl(mode, attrs[i].value) ==>
              FilterNode(mode, p, Element(name, attrs, kids)) == FilterList(mode, p, kids)
  {
  }

  /**
   * Any other allowed element stays, under its own name, with its attributes
   * rewritten and its children filtered.
   */
  lemma AllowedElementKept(mode: Mode, p: Policy, name: string, attrs: seq<Attr>, kids: seq<Node>)
    requires Lower(name) in p.tags && !Unwraps(mode, p.tags[Lower(name)], attrs)
    ensures FilterNode(mode, p, Element(name, attrs, kids)) ==
              [Element(name, RewriteAttrs(p.tags[Lower(name)], p.styles, attrs), FilterList(mode, p, kids))]
  {
  }

  // ---------------------------------------------------------------------
  // What the output satisfies

  predicate AttrsClean(mode: Mode, p: Policy, allowed: seq<string>, attrs: seq<Attr>) {
    && (forall i :: 0 <= i < |attrs| ==> attrs[i].name in allowed)
    && !Unwraps(mode, allowed, attrs)
    && (forall i :: 0 <= i < |attrs| && attrs[i].name == "style" ==>
          FilterStyle(attrs[i].value, p.styles) == attrs[i].value)
  }

  /**
   * A sanitised node: every element in it has an allowed tag name, carries
   * only attributes allowed for that tag, no allowed `href`/`src` that the
   * mode's own script test flags, and only `style` values the style filter
   * leaves unchanged.
   */
  predicate CleanNode(mode: Mode, p: Policy, n: Node)
    decreases n
  {
    match n
    case Element(name, attrs, kids) =>
      && Lower(name) in p.tags
      && AttrsClean(mode, p, p.tags[Lower(name)], attrs)
      && CleanList(mode, p, kids)
    case _ => true
  }

  predicate CleanList(mode: Mode, p: Policy, ns: seq<Node>)
    decreases ns
  {
    forall i :: 0 <= i < |ns| ==> CleanNode(mode, p, ns[i])
  }

  lemma RewriteAttrsClean(mode: Mode, p: Policy, allowed: seq<string>, attrs: seq<Attr>)
    requires !Unwraps(mode, allowed, attrs)
    ensures AttrsClean(mode, p, allowed, RewriteAttrs(allowed, p.styles, attrs))
  {
    var r := RewriteAttrs(allowed, p.styles, attrs);
    forall i | 0 <= i < |r| && r[i].name in allowed && IsUrlAttr(r[i].name)
      ensures !IsScriptUrl(mode, r[i].value)
    {
      assert r[i] in attrs;
      var j :| 0 <= j < |attrs| && attrs[j] == r[i];
    }
  }

  lemma CleanAppend(mode: Mode, p: Policy, a: seq<Node>, b: seq<Node>)
    requires CleanList(mode, p, a) && CleanList(mode, p, b)
    ensures CleanList(mode, p, a + b)
  {
    forall i | 0 <= i < |a + b|
      ensures CleanNode(mode, p, (a + b)[i])
    {
      if i < |a| { assert (a + b)[i] == a[i]; } else { assert (a + b)[i] == b[i - |a|]; }
    }
  }

  /** Every node the filter produces is sanitised, in both modes. */
  lemma {:induction false} FilterNodeClean(mode: Mode, p: Policy, n: Node)
    ensures CleanList(mode, p, FilterNode(mode, p, n))
    decreases n
  {
    match n
    case Text(_) =>
    case Other(_) =>
    case Element(name, attrs, kids) =>
      var kids' := FilterList(mode, p, kids);
      FilterListClean(mode, p, kids);
      var tag := Lower(name);
      if tag in p.tags && !Unwraps(mode, p.tags[tag], attrs) {
        RewriteAttrsClean(mode, p, p.tags[tag], attrs);
        assert CleanNode(mode, p, Element(name, RewriteAttrs(p.tags[tag], p.styles, attrs), kids'));
      } else if tag !in p.tags && mode == Escape {
        CleanAppend(mode, p, [Text("<" + tag + ">")], kids');
        CleanAppend(mode, p, [Text("<" + tag + ">")] + kids', [Text("</" + tag + ">")]);
      }
  }

  lemma {:induction false} FilterListClean(mode: Mode, p: Policy, ns: seq<Node>)
    ensures CleanList(mode, p, FilterList(mode, p, ns))
    decreases ns
  {
    if |ns| > 0 {
      FilterNodeClean(mode, p, ns[0]);
      FilterListClean(mode, p, ns[1..]);
      CleanAppend(mode, p, FilterNode(mode, p, ns[0]), FilterList(mode, p, ns[1..]));
    }
  }

  lemma AttrsCleanTail(mode: Mode, p: Policy, allowed: seq<string>, attrs: seq<Attr>)
    requires |attrs| > 0 && AttrsClean(mode, p, allowed, attrs)
    ensures AttrsClean(mode, p, allowed, attrs[1..])
  {
    forall i | 0 <= i < |attrs| - 1
      ensures attrs[1..][i] == attrs[i + 1]
    {
    }
  }

  lemma {:induction false} RewriteAttrsIdentity(mode: Mode, p: Policy, allowed: seq<string>, attrs: seq<Attr>)
    requires AttrsClean(mode, p, allowed, attrs)
    ensures RewriteAttrs(allowed, p.styles, attrs) == attrs
    decreases |attrs|
  {
    if |attrs| > 0 {
      var a := attrs[0];
      AttrsCleanTail(mode, p, allowed, attrs);
      RewriteAttrsIdentity(mode, p, allowed, attrs[1..]);
      assert a.name in allowed;
      if a.name == "style" {
        assert FilterStyle(a.value, p.styles) == a.value;
        assert Attr("style", FilterStyle(a.value, p.styles)) == a;
      }
      assert [a] + attrs[1..] == attrs;
    }
  }

  /** A sanitised node is left exactly as it is. */
  lemma {:induction false} FilterNodeFixesClean(mode: Mode, p: Policy, n: Node)
    requires CleanNode(mode, p, n)
    ensures FilterNode(mode, p, n) == [n]
    decreases n
  {
    match n
    case Text(_) =>
    case Other(_) =>
    case Element(name, attrs, kids) =>
      FilterListFixesClean(mode, p, kids);
      RewriteAttrsIdentity(mode, p, p.tags[Lower(name)], attrs);
  }

  lemma {:induction false} FilterListFixesClean(mode: Mode, p: Policy, ns: seq<Node>)
    requires CleanList(mode, p, ns)
    ensures FilterList(mode, p, ns) == ns
    decreases ns
  {
    if |ns| > 0 {
      FilterNodeFixesClean(mode, p, ns[0]);
      assert CleanList(mode, p, ns[1..]) by {
        forall i | 0 <= i < |ns[1..]| ensures CleanNode(mode, p, ns[1..][i]) {
          assert ns[1..][i] == ns[i + 1];
        }
      }
      FilterListFixesClean(mode, p, ns[1..]);
      assert [ns[0]] + ns[1..] == ns;
    }
  }

  /** Sanitising twice gives the same tree as sanitising once, in both modes. */
  lemma FilterIdempotent(mode: Mode, p: Policy, ns: seq<Node>)
    ensures FilterList(mode, p, FilterList(mode, p, ns)) == FilterList(mode, p, ns)
  {
    FilterListClean(mode, p, ns);
    FilterListFixesClean(mode, p, FilterList(mode, p, ns));
  }

  // ---------------------------------------------------------------------
  // What happens to the non-element nodes

  /** The in-order sequence of non-element nodes (text, comments, ...). */
  function NodeLeaves(n: Node): seq<Node>
    decreases n
  {
    match n
    case Element(_, _, kids) => Leaves(kids)
    case _ => [n]
  }

  function Leaves(ns: seq<Node>): seq<Node>
    decreases ns
  {
    if |ns| == 0 then [] else NodeLeaves(ns[0]) + Leaves(ns[1..])
  }

  /**
   * The non-element nodes the sanitiser is meant to leave behind: those of
   * the input, and, in the escape mode, a text marker before and after the
   * contents of every disallowed element.
   */
  function NodeExpected(mode: Mode, p: Policy, n: Node): seq<Node>
    decreases n
  {
    match n
    case Element(name, _, kids) =>
      var tag := Lower(name);
      if tag in p.tags || mode == Remove then Expected(mode, p, kids)
      else [Text("<" + tag + ">")] + Expected(mode, p, kids) + [Text("</" + tag + ">")]
    case _ => [n]
  }

  function Expected(mode: Mode, p: Policy, ns: seq<Node>): seq<Node>
    decreases ns
  {
    if |ns| == 0 then [] else NodeExpected(mode, p, ns[0]) + Expected(mode, p, ns[1..])
  }

  lemma {:induction false} LeavesAppend(a: seq<Node>, b: seq<Node>)
    ensures Leaves(a + b) == Leaves(a) + Leaves(b)
    decreases |a|
  {
    if |a| == 0 {
      assert a + b == b;
    } else {
      assert (a + b)[0] == a[0];
      assert (a + b)[1..] == a[1..] + b;
      LeavesAppend(a[1..], b);
    }
  }

  lemma {:induction false} FilterNodeLeaves(mode: Mode, p: Policy, n: Node)
    ensures Leaves(FilterNode(mode, p, n)) == NodeExpected(mode, p, n)
    decreases n
  {
    match n
    case Text(_) => assert Leaves([n]) == NodeLeaves(n) + Leaves([]);
    case Other(_) => assert Leaves([n]) == NodeLeaves(n) + Leaves([]);
    case Element(name, attrs, kids) =>
      var kids' := FilterList(mode, p, kids);
      FilterListLeaves(mode, p, kids);
      var tag := Lower(name);
      if tag in p.tags && !Unwraps(mode, p.tags[tag], attrs) {
        var e := Element(name, RewriteAttrs(p.tags[tag], p.styles, attrs), kids');
        assert Leaves([e]) == NodeLeaves(e) + Leaves([]);
      } else if tag !in p.tags && mode == Escape {
        var open := [Text("<" + tag + ">")];
        var close := [Text("</" + tag + ">")];
        LeavesAppend(open + kids', close);
        LeavesAppend(open, kids');
        assert Leaves(open) == open by { assert Leaves(open) == NodeLeaves(open[0]) + Leaves([]); }
        assert Leaves(close) == close by { assert Leaves(close) == NodeLeaves(close[0]) + Leaves([]); }
      }
  }

  lemma {:induction false} FilterListLeaves(mode: Mode, p: Policy, ns: seq<Node>)
    ensures Leaves(FilterList(mode, p, ns)) == Expected(mode, p, ns)
    decreases ns
  {
    if |ns| > 0 {
      FilterNodeLeaves(mode, p, ns[0]);
      FilterListLeaves(mode, p, ns[1..]);
      LeavesAppend(FilterNode(mode, p, ns[0]), FilterList(mode, p, ns[1..]));
    }
  }

  lemma {:induction false} ExpectedRemoveIsLeaves(p: Policy, ns: seq<Node>)
    ensures Expected(Remove, p, ns) == Leaves(ns)
    decreases ns
  {
    if |ns| > 0 {
      ExpectedRemoveIsLeaves(p, ns[1..]);
      if ns[0].Element? {
        ExpectedRemoveIsLeaves(p, ns[0].children);
      }
    }
  }

  /**
   * The remove mode keeps every text and other non-element node, in order:
   * only elements go.
   */
  lemma FilterPreservesText(p: Policy, ns: seq<Node>)
    ensures Leaves(FilterList(Remove, p, ns)) == Leaves(ns)
  {
    FilterListLeaves(Remove, p, ns);
    ExpectedRemoveIsLeaves(p, ns);
  }

  /**
   * The escape mode keeps every non-element node, in order, and adds the
   * `<name>` and `</name>` markers around each disallowed element's contents.
   */
  lemma EscapePreservesText(p: Policy, ns: seq<Node>)
    ensures Leaves(FilterList(Escape, p, ns)) == Expected(Escape, p, ns)
  {
    FilterListLeaves(Escape, p, ns);
  }

  // ---------------------------------------------------------------------
  // The entry points, `filterSync` and `filterEscapeSync`

  datatype FilterError =
    /** The arguments guard rejected a missing `allowedTags` or `allowedStyles`. */
    | MissingArguments(message: string)
    /** `html.length` was read on an absent `html`. */
    | TypeError

  const ArgumentsRequired := "`allowedTags`, `allowedStyles`, and `html` must be provided"

  /** The output is wrapped in a `body` element when `html.indexOf('body') === 1`. */
  predicate WrapsInBody(html: string) {
    IndexOf(html, "body") == 1
  }

  /**
   * `filterSync` (mode `Remove`) and `filterEscapeSync` (mode `Escape`).
   * `parse` gives the child nodes of the parsed document's body and
   * `serialize` stands for `innerHTML`; the callback is the identity.
   */
  function Sanitize(mode: Mode, parse: string -> seq<Node>, serialize: seq<Node> -> string,
                    allowedTags: Option<map<string, seq<string>>>, allowedStyles: Option<seq<string>>,
                    html: Option<string>): (r: Result<string, FilterError>)
    ensures html.None? ==> r == Err(TypeError)
    ensures html == Some("") ==> r == Ok("")
    ensures html.Some? && html.value != "" && (allowedTags.None? || allowedStyles.None?) ==>
              r == Err(MissingArguments(ArgumentsRequired))
    ensures html.Some? && html.value != "" && allowedTags.Some? && allowedStyles.Some? ==> r.Ok?
    ensures r.Ok? && html.value != "" ==>
              && allowedTags.Some? && allowedStyles.Some?
              && var body := serialize(FilterList(mode, Policy(allowedTags.value, allowedStyles.value), parse(html.value)));
                 r.value == if WrapsInBody(html.value) then "<body>" + body + "</body>" else body
  {
    if html.None? then Err(TypeError)
    else if html.value == "" || allowedStyles.None? || allowedTags.None? then
      if |html.value| == 0 then Ok(html.value) else Err(MissingArguments(ArgumentsRequired))
    else
      var p := Policy(allowedTags.value, allowedStyles.value);
      var body := serialize(FilterList(mode, p, parse(html.value)));
      if WrapsInBody(html.value) then Ok("<body>" + body + "</body>") else Ok(body)
  }

  /**
   * `html.indexOf('body') === 1` holds exactly when "body" sits at position 1
   * (it then cannot also sit at position 0, as "ody" does not start "body").
   */
  lemma WrapsInBodyIff(html: string)
    ensures WrapsInBody(html) <==> |html| >= 5 && html[1..5] == "body"
  {
    var r := IndexOf(html, "body");
    if |html| >= 5 && html[1..5] == "body" {
      assert OccursAt(html, "body", 1);
      assert html[1] == 'b' && html[1] != 'o';
      assert !OccursAt(html, "body", 0);
      assert r != -1;
      assert r <= 1;
    }
  }

}
