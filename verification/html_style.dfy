/**
 * The string helpers of the HTML sanitiser: its own `trim`, and the filter
 * applied to a `style` attribute one declaration at a time.
 */
module HtmlStyle {
  import opened Strings

  predicate LeadsWithSpace(s: string) {
    |s| > 0 && IsSpace(s[0])
  }

  /**
   * The sanitiser's `trim`, `str.replace(/^\s|\s$/g, '')`: the pattern
   * matches one character, so at most one whitespace character goes from
   * each end.
   */
  function Trim(s: string): (r: string)
    ensures var a := if LeadsWithSpace(s) then 1 else 0;
            && a + |r| <= |s| && r == s[a..a + |r|]
            && |s| - (a + |r|) <= 1
            && (a + |r| < |s| ==> IsSpace(s[|s| - 1]))
            && (|r| > 0 && a + |r| == |s| ==> !IsSpace(s[|s| - 1]))
  {
    var t := if LeadsWithSpace(s) then s[1..] else s;
    if |t| > 0 && IsSpace(t[|t| - 1]) then t[..|t| - 1] else t
  }

  /** Two leading blanks: only the first goes. */
  lemma TrimDropsOnlyOne()
    ensures Trim("  color ") == " color"
  {
    var s := "  color ";
    assert LeadsWithSpace(s);
    assert s[1..] == " color ";
    assert IsSpace(s[1..][6]);
    assert s[1..][..6] == " color";
  }

  /** The name of a declaration: its text before the first `:`, trimmed. */
  function StyleName(decl: string): string {
    Trim(Split(decl, ':')[0])
  }

  /** A declaration survives when it is non-empty and its name is allowed. */
  predicate Keep(decl: string, allowedStyles: seq<string>) {
    decl != "" && StyleName(decl) in allowedStyles
  }

  /** The surviving declarations, verbatim and in their original order. */
  function KeepDecls(decls: seq<string>, allowedStyles: seq<string>): (r: seq<string>)
    ensures |r| <= |decls|
    ensures forall i :: 0 <= i < |r| ==> Keep(r[i], allowedStyles) && r[i] in decls
    ensures forall i :: 0 <= i < |decls| && Keep(decls[i], allowedStyles) ==> decls[i] in r
  {
    if |decls| == 0 then []
    else if Keep(decls[0], allowedStyles) then [decls[0]] + KeepDecls(decls[1..], allowedStyles)
    else KeepDecls(decls[1..], allowedStyles)
  }

  /** Filtering distributes over concatenation, so the original order is kept. */
  lemma {:induction false} KeepDeclsAppend(a: seq<string>, b: seq<string>, allowedStyles: seq<string>)
    ensures KeepDecls(a + b, allowedStyles) == KeepDecls(a, allowedStyles) + KeepDecls(b, allowedStyles)
    decreases |a|
  {
    if |a| == 0 {
      assert a + b == b;
    } else {
      assert (a + b)[0] == a[0];
      assert (a + b)[1..] == a[1..] + b;
      KeepDeclsAppend(a[1..], b, allowedStyles);
    }
  }

  /** A single declaration is kept, once, exactly when it survives. */
  lemma KeepDeclsSingle(decl: string, allowedStyles: seq<string>)
    ensures KeepDecls([decl], allowedStyles) == if Keep(decl, allowedStyles) then [decl] else []
  {
    assert [decl][1..] == [];
  }

  /**
   * The name of a declaration `name:rest`, where `name` holds no colon, is
   * `name` trimmed; a declaration without a colon is its own name.
   */
  lemma StyleNameBeforeColon(name: string, rest: string)
    requires ':' !in name
    ensures StyleName(name + ":" + rest) == Trim(name)
    ensures StyleName(name) == Trim(name)
  {
    SplitPrefix(name, rest, ':');
    assert name + ":" + rest == name + [':'] + rest;
    SplitPiece(name, ':');
  }

  /** A list whose every declaration survives is left as it is. */
  lemma {:induction false} KeepDeclsAllKept(decls: seq<string>, allowedStyles: seq<string>)
    requires forall i :: 0 <= i < |decls| ==> Keep(decls[i], allowedStyles)
    ensures KeepDecls(decls, allowedStyles) == decls
  {
    if |decls| > 0 {
      KeepDeclsAllKept(decls[1..], allowedStyles);
    }
  }

  /**
   * The rewritten `style` value: the `;`-join of the surviving declarations.
   * Split again, it gives back exactly those declarations.
   */
  function FilterStyle(value: string, allowedStyles: seq<string>): (r: string)
    ensures var kept := KeepDecls(Split(value, ';'), allowedStyles);
            && (|kept| == 0 ==> r == "")
            && (|kept| > 0 ==> Split(r, ';') == kept)
  {
    var kept := KeepDecls(Split(value, ';'), allowedStyles);
    if |kept| > 0 then
      SplitJoin(kept, ';');
      Join(kept, ';')
    else
      Join(kept, ';')
  }

  /** Filtering a `style` value a second time changes nothing. */
  lemma FilterStyleIdempotent(value: string, allowedStyles: seq<string>)
    ensures FilterStyle(FilterStyle(value, allowedStyles), allowedStyles) == FilterStyle(value, allowedStyles)
  {
    var r := FilterStyle(value, allowedStyles);
    var kept := KeepDecls(Split(value, ';'), allowedStyles);
    if |kept| > 0 {
      KeepDeclsAllKept(kept, allowedStyles);
    } else {
      assert Split(r, ';') == [""];
    }
  }
}
