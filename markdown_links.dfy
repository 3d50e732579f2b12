/** The chat panel's rewriting of markdown links `[text](url)` in a reply into
    HTML anchors (src/content.js): a global, left-to-right, non-overlapping
    replacement of the pattern `\[([^\]]+)\]\(([^)]+)\)`. */
module MarkdownLinks {
  import opened JsStrings

  /** The two captured groups of one match. */
  datatype Link = Link(text: string, url: string)

  /** A link the pattern accepts: non-empty text without `]`, non-empty url
      without `)`. */
  predicate WellFormedLink(l: Link) {
    l.text != [] && ']' !in l.text && l.url != [] && ')' !in l.url
  }

  /** The markdown spelling of a link. */
  function Markdown(l: Link): string {
    "[" + l.text + "](" + l.url + ")"
  }

  const AnchorOpen: string := "<a href=\""
  const AnchorMiddle: string := "\" target=\"_blank\" style=\"color: #0366d6; text-decoration: none;\">"
  const AnchorClose: string := "</a>"

  /** The replacement of one match: the url and the text are inserted as they
      are, with no escaping. */
  function Anchor(l: Link): string {
    AnchorOpen + l.url + AnchorMiddle + l.text + AnchorClose
  }

  /** The first position at or after `from` that holds `c`. */
  function IndexOf(s: string, c: char, from: nat): (r: Option<nat>)
    requires from <= |s|
    ensures r.Some? ==> from <= r.value < |s| && s[r.value] == c
                        && forall k :: from <= k < r.value ==> s[k] != c
    ensures r.None? ==> forall k :: from <= k < |s| ==> s[k] != c
    decreases |s| - from
  {
    if from == |s| then None
    else if s[from] == c then Some(from)
    else IndexOf(s, c, from + 1)
  }

  /** The match of the pattern that starts at the first character of `s`, if
      any: the text runs to the first `]`, which must come right before `(`,
      and the url runs to the first `)` after that. */
  function MatchLinkAt(s: string): (r: Option<Link>)
    ensures r.Some? ==> WellFormedLink(r.value) && StartsWith(s, Markdown(r.value))
  {
    if s == [] || s[0] != '[' then None
    else match IndexOf(s, ']', 1)
      case None => None
      case Some(j) =>
        if j == 1 || j + 1 == |s| || s[j + 1] != '(' then None
        else match IndexOf(s, ')', j + 2)
          case None => None
          case Some(k) =>
            if k == j + 2 then None
            else
              var l := Link(s[1..j], s[j + 2..k]);
              assert Markdown(l) == s[..k + 1];
              Some(l)
  }

  /** `s.replace(pattern, replacement)` with the global flag: scanning left to
      right, a match is replaced and scanning resumes after it; elsewhere one
      character is copied and scanning moves on by one. */
  function ReplaceLinks(s: string, replacement: Link -> string): (r: string)
    ensures Unmatched(s) ==> r == s
    decreases |s|
  {
    if s == [] then []
    else
      NoMatchShift(s);
      match MatchLinkAt(s)
      case Some(l) => replacement(l) + ReplaceLinks(s[|Markdown(l)|..], replacement)
      case None => [s[0]] + ReplaceLinks(s[1..], replacement)
  }

  /** Where no match starts anywhere in `s`, none starts at its front and
      none anywhere in `s[1..]`. */
  lemma NoMatchShift(s: string)
    requires s != []
    ensures Unmatched(s) ==> MatchLinkAt(s).None? && Unmatched(s[1..])
  {
    if Unmatched(s) {
      assert NoMatchAt(s, 0) && s[0..] == s;
      forall i | 0 <= i < |s| - 1 ensures NoMatchAt(s[1..], i) {
        assert s[1..][i..] == s[i + 1..];
        assert NoMatchAt(s, i + 1);
      }
    }
  }

  /** `convertMarkdownLinks`: the text comes back unchanged exactly when no
      well-formed link is spelled out anywhere in it. */
  function ConvertMarkdownLinks(s: string): (r: string)
    ensures r == s <==> forall i :: 0 <= i < |s| ==> !HasLinkAt(s, i)
  {
    UnchangedIffNoLink(s);
    ReplaceLinks(s, Anchor)
  }

  /** Some well-formed link is spelled out at position `i` of `s`. */
  ghost predicate HasLinkAt(s: string, i: nat)
    requires i <= |s|
  {
    exists l :: WellFormedLink(l) && StartsWith(s[i..], Markdown(l))
  }

  /** Every well-formed link spelled out at the start of `s` is the one the
      matcher finds: a match exists exactly when some link is spelled out, and
      it is unique. */
  lemma MatchLinkAtComplete(s: string, l: Link)
    requires WellFormedLink(l) && StartsWith(s, Markdown(l))
    ensures MatchLinkAt(s) == Some(l)
  {
    var t, u := l.text, l.url;
    var j := 1 + |t|;
    var k := j + 2 + |u|;
    var m := Markdown(l);
    assert m == "[" + t + "](" + u + ")";
    assert m[1..j] == t && m[j + 2..k] == u;
    var n := s[..k + 1];
    assert n == m;
    assert n[1..j] == s[1..j];
    assert n[j + 2..k] == s[j + 2..k];
    assert s[1..j] == t && s[j + 2..k] == u;
    FirstAfter(s, ']', 1, j);
    FirstAfter(s, ')', j + 2, k);
  }

  /** `IndexOf` finds `c` at `p` when `c` is absent from `s[from..p]`. */
  lemma FirstAfter(s: string, c: char, from: nat, p: nat)
    requires from <= p < |s| && s[p] == c && c !in s[from..p]
    ensures IndexOf(s, c, from) == Some(p)
  {
  }

  /** The matcher and the declarative reading of the pattern agree. */
  lemma HasLinkAtIff(s: string, i: nat)
    requires i <= |s|
    ensures HasLinkAt(s, i) <==> MatchLinkAt(s[i..]).Some?
  {
    if HasLinkAt(s, i) {
      var l :| WellFormedLink(l) && StartsWith(s[i..], Markdown(l));
      MatchLinkAtComplete(s[i..], l);
    }
    if MatchLinkAt(s[i..]).Some? {
      assert WellFormedLink(MatchLinkAt(s[i..]).value);
    }
  }

  /** No match starts anywhere in `s`. */
  predicate Unmatched(s: string) {
    forall i :: 0 <= i < |s| ==> NoMatchAt(s, i)
  }

  /** No match starts at position `i` of `s`. */
  predicate NoMatchAt(s: string, i: nat)
    requires i <= |s|
  {
    MatchLinkAt(s[i..]).None?
  }

  /** Where no match starts, one character is copied. */
  lemma CopyOne(s: string, n: nat, f: Link -> string)
    requires 0 < n <= |s| && NoMatchAt(s, n - 1)
    ensures s[..n - 1] + ReplaceLinks(s[n - 1..], f) == s[..n] + ReplaceLinks(s[n..], f)
  {
    var t := s[n - 1..];
    UnmatchedFront(t, f);
    assert t[0] == s[n - 1] && t[1..] == s[n..];
    assert s[..n] == s[..n - 1] + [s[n - 1]];
    Regroup(s[..n - 1], s[n - 1], ReplaceLinks(s[n..], f));
  }

  lemma Regroup(a: string, x: char, b: string)
    ensures a + ([x] + b) == (a + [x]) + b
  {
  }

  /** A text in which no match starts at the front loses its first character
      to the output unchanged. */
  lemma UnmatchedFront(t: string, f: Link -> string)
    requires t != [] && MatchLinkAt(t).None?
    ensures ReplaceLinks(t, f) == [t[0]] + ReplaceLinks(t[1..], f)
  {
  }

  /** A prefix of `s` in which no match starts is copied verbatim. */
  lemma {:induction false} CopyUnmatched(s: string, n: nat, f: Link -> string)
    requires n <= |s|
    requires forall i :: 0 <= i < n ==> NoMatchAt(s, i)
    ensures ReplaceLinks(s, f) == s[..n] + ReplaceLinks(s[n..], f)
  {
    if n == 0 {
      assert s[n..] == s;
    } else {
      CopyUnmatched(s, n - 1, f);
      CopyOne(s, n, f);
    }
  }

  /** A well-formed link at the front is replaced, and the rest is converted
      on its own. */
  lemma LinkReplaced(l: Link, rest: string, f: Link -> string)
    requires WellFormedLink(l)
    ensures ReplaceLinks(Markdown(l) + rest, f) == f(l) + ReplaceLinks(rest, f)
  {
    var s := Markdown(l) + rest;
    MatchLinkAtComplete(s, l);
    assert s[|Markdown(l)|..] == rest;
  }

  /** The first spelled-out link of a text, after a stretch where none starts,
      is the one replaced. */
  lemma FirstLinkReplaced(a: string, l: Link, rest: string, f: Link -> string)
    requires WellFormedLink(l)
    requires forall i :: 0 <= i < |a| ==> !HasLinkAt(a + (Markdown(l) + rest), i)
    ensures ReplaceLinks(a + (Markdown(l) + rest), f) == a + (f(l) + ReplaceLinks(rest, f))
  {
    var s := a + (Markdown(l) + rest);
    forall i | 0 <= i < |a| ensures NoMatchAt(s, i) {
      HasLinkAtIff(s, i);
    }
    CopyUnmatched(s, |a|, f);
    assert s[..|a|] == a && s[|a|..] == Markdown(l) + rest;
    LinkReplaced(l, rest, f);
  }

  /** A link at the front becomes its anchor, with text and url verbatim. */
  lemma LinkRewritten(l: Link, rest: string)
    requires WellFormedLink(l)
    ensures ConvertMarkdownLinks(Markdown(l) + rest) == Anchor(l) + ConvertMarkdownLinks(rest)
  {
    LinkReplaced(l, rest, Anchor);
  }

  /** In `a + [T](U) + rest`, with no link spelled out in `a`, `a` is copied,
      the link becomes its anchor and `rest` is converted on its own. */
  lemma FirstLinkRewritten(a: string, l: Link, rest: string)
    requires WellFormedLink(l)
    requires forall i :: 0 <= i < |a| ==> !HasLinkAt(a + (Markdown(l) + rest), i)
    ensures ConvertMarkdownLinks(a + (Markdown(l) + rest))
         == a + (Anchor(l) + ConvertMarkdownLinks(rest))
  {
    FirstLinkReplaced(a, l, rest, Anchor);
  }

  /** Replacing every link by its anchor leaves text in which no link is
      spelled out unchanged, and changes any other text. */
  lemma UnchangedIffNoLink(s: string)
    ensures ReplaceLinks(s, Anchor) == s <==> forall i :: 0 <= i < |s| ==> !HasLinkAt(s, i)
  {
    if forall i :: 0 <= i < |s| ==> !HasLinkAt(s, i) {
      forall i | 0 <= i < |s| ensures NoMatchAt(s, i) {
        HasLinkAtIff(s, i);
      }
      assert Unmatched(s);
    } else {
      var i :| 0 <= i < |s| && HasLinkAt(s, i);
      FirstMatchChanges(s, i);
    }
  }

  /** If a link is spelled out somewhere, the `[` of the first one is
      replaced by the `<` of its anchor. */
  lemma {:induction false} FirstMatchChanges(s: string, i: nat)
    requires i < |s| && HasLinkAt(s, i)
    ensures ReplaceLinks(s, Anchor) != s
  {
    if exists p :: 0 <= p < i && HasLinkAt(s, p) {
      var p :| 0 <= p < i && HasLinkAt(s, p);
      FirstMatchChanges(s, p);
    } else {
      var l :| WellFormedLink(l) && StartsWith(s[i..], Markdown(l));
      var a, rest := s[..i], s[i + |Markdown(l)|..];
      assert s[i..] == Markdown(l) + rest;
      assert s == a + (Markdown(l) + rest);
      FirstLinkReplaced(a, l, rest, Anchor);
      var tail := Anchor(l) + ReplaceLinks(rest, Anchor);
      assert tail[0] == '<';
      assert ReplaceLinks(s, Anchor)[i] == tail[0];
      assert s[i] == '[';
    }
  }

  /** Empty link text or an empty url is not a match: the `[` is copied and
      scanning moves on. */
  lemma EmptyPartsNotRewritten(t: string, rest: string)
    requires ']' !in t
    ensures ConvertMarkdownLinks("[]" + rest) == "[" + ConvertMarkdownLinks("]" + rest)
    ensures ConvertMarkdownLinks("[" + t + "]()" + rest) == "[" + ConvertMarkdownLinks(t + "]()" + rest)
  {
    EmptyTextNotLink(rest);
    EmptyUrlNotLink(t, rest);
  }

  lemma EmptyTextNotLink(rest: string)
    ensures ConvertMarkdownLinks("[]" + rest) == "[" + ConvertMarkdownLinks("]" + rest)
  {
    var s := "[]" + rest;
    assert IndexOf(s, ']', 1) == Some(1);
    assert s[1..] == "]" + rest;
    UnmatchedFront(s, Anchor);
  }

  lemma EmptyUrlNotLink(t: string, rest: string)
    requires ']' !in t
    ensures ConvertMarkdownLinks("[" + t + "]()" + rest) == "[" + ConvertMarkdownLinks(t + "]()" + rest)
  {
    var s := "[" + t + "]()" + rest;
    var j := 1 + |t|;
    assert s[j] == ']' && s[j + 1] == '(' && s[j + 2] == ')';
    assert forall p :: 1 <= p < j ==> s[p] == t[p - 1];
    assert IndexOf(s, ']', 1) == Some(j);
    assert IndexOf(s, ')', j + 2) == Some(j + 2);
    assert s[1..] == t + "]()" + rest;
    UnmatchedFront(s, Anchor);
  }

  /** The link text runs from the first `[` of a match, so an earlier `[`
      inside it stays part of the text. */
  lemma NestedBracketExample()
    ensures ConvertMarkdownLinks("[a [b](c)") == Anchor(Link("a [b", "c"))
  {
    var l := Link("a [b", "c");
    assert Markdown(l) + [] == "[a [b](c)";
    LinkRewritten(l, []);
    assert ConvertMarkdownLinks([]) == [];
  }
}
