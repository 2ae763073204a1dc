/** The routing boundary of src/proxy.ts: the slug sanitiser (applied to an
    already percent-decoded path) and the pass/redirect decision. */
module Proxy {

  // ---------------------------------------------------------------------------
  // Character classes
  // ---------------------------------------------------------------------------

  predicate IsLowerAlnum(c: char)
  {
    ('a' <= c <= 'z') || ('0' <= c <= '9')
  }

  /** The characters a sanitised slug may contain: `[a-z0-9-]`. */
  predicate IsSlugChar(c: char)
  {
    IsLowerAlnum(c) || c == '-'
  }

  /** `toLowerCase` on the ASCII letters; other characters are kept. */
  function LowerChar(c: char): (r: char)
    ensures 'A' <= c <= 'Z' ==> 'a' <= r <= 'z'
    ensures !('A' <= c <= 'Z') ==> r == c
  {
    if 'A' <= c <= 'Z' then (c as int + 32) as char else c
  }

  /** The class `\s` of JavaScript regular expressions. */
  predicate IsJsWhitespace(c: char)
  {
    var n := c as int;
    n == 0x09 || n == 0x0A || n == 0x0B || n == 0x0C || n == 0x0D || n == 0x20
    || n == 0xA0 || n == 0x1680 || (0x2000 <= n <= 0x200A) || n == 0x2028 || n == 0x2029
    || n == 0x202F || n == 0x205F || n == 0x3000 || n == 0xFEFF
  }

  /** The explicit class `[?!@#$%^&*()+=_\[\]{};':",.<>\/]`. */
  predicate IsListedPunctuation(c: char)
  {
    c in "?!@#$%^&*()+=_[]{};':\",.<>/"
  }

  function MapChars(s: string, f: char -> char): (r: string)
    ensures |r| == |s|
    ensures forall i :: 0 <= i < |s| ==> r[i] == f(s[i])
  {
    seq(|s|, i requires 0 <= i < |s| => f(s[i]))
  }

  function ToLower(s: string): string { MapChars(s, LowerChar) }

  function DashIf(c: char, replace: bool): char { if replace then '-' else c }

  /** Every whitespace character and underscore becomes a dash. */
  function ReplaceWhitespace(s: string): string
  {
    MapChars(s, c => DashIf(c, IsJsWhitespace(c) || c == '_'))
  }

  /** Every character of the listed punctuation becomes a dash. */
  function ReplacePunctuation(s: string): string
  {
    MapChars(s, c => DashIf(c, IsListedPunctuation(c)))
  }

  /** Every character outside lower-case ASCII letters, digits and the dash
      becomes a dash. */
  function ReplaceIllegal(s: string): string
  {
    MapChars(s, c => DashIf(c, !IsSlugChar(c)))
  }

  // ---------------------------------------------------------------------------
  // Dashes
  // ---------------------------------------------------------------------------

  predicate AllSlugChars(s: string)
  {
    forall i :: 0 <= i < |s| ==> IsSlugChar(s[i])
  }

  predicate NoDoubleDash(s: string)
  {
    forall i :: 0 <= i < |s| - 1 ==> s[i] != '-' || s[i + 1] != '-'
  }

  predicate NoEdgeDash(s: string)
  {
    |s| == 0 || (s[0] != '-' && s[|s| - 1] != '-')
  }

  /** The string with every '-' deleted. */
  function RemoveDashes(s: string): string
  {
    if |s| == 0 then []
    else (if s[0] == '-' then [] else [s[0]]) + RemoveDashes(s[1..])
  }

  lemma {:induction false} RemoveDashesConcat(a: string, b: string)
    ensures RemoveDashes(a + b) == RemoveDashes(a) + RemoveDashes(b)
  {
    if |a| > 0 {
      assert (a + b)[1..] == a[1..] + b;
      RemoveDashesConcat(a[1..], b);
    } else {
      assert a + b == b;
    }
  }

  /** `.replace(/-{2,}/g, "-")`: every run of dashes becomes one dash (a
      dash followed by another dash is dropped). */
  function CollapseDashes(s: string): string
  {
    if |s| == 0 then []
    else if s[0] == '-' && |s| > 1 && s[1] == '-' then CollapseDashes(s[1..])
    else [s[0]] + CollapseDashes(s[1..])
  }

  /** What collapsing guarantees: no double dash is left, the first
      character survives, the set of characters only shrinks, the
      non-dash characters are untouched, and a string without double dashes
      is left alone. */
  lemma {:induction false} CollapseDashesShape(s: string)
    ensures |s| > 0 ==> |CollapseDashes(s)| > 0 && CollapseDashes(s)[0] == s[0]
    ensures AllSlugChars(s) ==> AllSlugChars(CollapseDashes(s))
    ensures NoDoubleDash(CollapseDashes(s))
    ensures RemoveDashes(CollapseDashes(s)) == RemoveDashes(s)
    ensures NoDoubleDash(s) ==> CollapseDashes(s) == s
  {
    if |s| > 0 {
      CollapseDashesShape(s[1..]);
      assert NoDoubleDash(s) ==> NoDoubleDash(s[1..]);
      var rest := CollapseDashes(s[1..]);
      if !(s[0] == '-' && |s| > 1 && s[1] == '-') {
        var r := [s[0]] + rest;
        assert r == CollapseDashes(s);
        assert forall i :: 1 <= i < |r| ==> r[i] == rest[i - 1];
        assert RemoveDashes(r) == (if s[0] == '-' then [] else [s[0]]) + RemoveDashes(rest) by {
          assert r[1..] == rest;
        }
      }
    }
  }

  /** The length of the leading run of dashes. */
  function LeadingDashes(s: string): (k: nat)
    ensures k <= |s|
    ensures forall i :: 0 <= i < k ==> s[i] == '-'
    ensures k < |s| ==> s[k] != '-'
  {
    if |s| > 0 && s[0] == '-' then 1 + LeadingDashes(s[1..]) else 0
  }

  /** The length of the trailing run of dashes. */
  function TrailingDashes(s: string): (k: nat)
    ensures k <= |s|
    ensures forall i :: |s| - k <= i < |s| ==> s[i] == '-'
    ensures k < |s| ==> s[|s| - k - 1] != '-'
  {
    if |s| > 0 && s[|s| - 1] == '-' then 1 + TrailingDashes(s[..|s| - 1]) else 0
  }

  lemma {:induction false} RemoveDashesAllDashes(s: string)
    requires forall i :: 0 <= i < |s| ==> s[i] == '-'
    ensures RemoveDashes(s) == []
  {
    if |s| > 0 {
      RemoveDashesAllDashes(s[1..]);
    }
  }

  /** A contiguous piece of a string keeps its character set and the
      absence of double dashes. */
  lemma SliceKeepsShape(s: string, a: nat, b: nat)
    requires a <= b <= |s|
    ensures AllSlugChars(s) ==> AllSlugChars(s[a..b])
    ensures NoDoubleDash(s) ==> NoDoubleDash(s[a..b])
  {
    var r := s[a..b];
    assert forall i :: 0 <= i < |r| ==> r[i] == s[a + i];
  }

  /** `.replace(/^-+|-+$/g, "")`: the leading and the trailing run of dashes
      go, and nothing else. */
  function TrimDashes(s: string): (r: string)
    ensures NoEdgeDash(r)
    ensures AllSlugChars(s) ==> AllSlugChars(r)
    ensures NoDoubleDash(s) ==> NoDoubleDash(r)
    ensures RemoveDashes(r) == RemoveDashes(s)
    ensures NoEdgeDash(s) ==> r == s
  {
    var a := LeadingDashes(s);
    var t := s[a..];
    var b := TrailingDashes(t);
    var r := t[..|t| - b];
    assert r == s[a..|s| - b];
    SliceKeepsShape(s, a, |s| - b);
    TrimKeepsLetters(s, a, b);
    r
  }

  /** Dropping a run of dashes from either end keeps the other characters. */
  lemma DropDashesFront(s: string, a: nat)
    requires a <= |s| && forall i :: 0 <= i < a ==> s[i] == '-'
    ensures RemoveDashes(s[a..]) == RemoveDashes(s)
  {
    assert s == s[..a] + s[a..];
    RemoveDashesConcat(s[..a], s[a..]);
    RemoveDashesAllDashes(s[..a]);
  }

  lemma DropDashesBack(s: string, k: nat)
    requires k <= |s| && forall i :: k <= i < |s| ==> s[i] == '-'
    ensures RemoveDashes(s[..k]) == RemoveDashes(s)
  {
    assert s == s[..k] + s[k..];
    RemoveDashesConcat(s[..k], s[k..]);
    RemoveDashesAllDashes(s[k..]);
  }

  lemma TrimKeepsLetters(s: string, a: nat, b: nat)
    requires a <= |s| && b <= |s| - a
    requires forall i :: 0 <= i < a ==> s[i] == '-'
    requires forall i :: |s| - b <= i < |s| ==> s[i] == '-'
    ensures RemoveDashes(s[a..|s| - b]) == RemoveDashes(s)
  {
    var t := s[a..];
    DropDashesFront(s, a);
    assert forall i :: |t| - b <= i < |t| ==> t[i] == s[a + i];
    DropDashesBack(t, |t| - b);
    assert t[..|t| - b] == s[a..|s| - b];
  }

  // ---------------------------------------------------------------------------
  // sanitizeSlug
  // ---------------------------------------------------------------------------

  /** The per-character effect of lowercasing and the three replacements:
      a character is kept (lowercased) if that gives `[a-z0-9-]`, and becomes
      a dash otherwise. */
  function NormalChar(c: char): (r: char)
    ensures IsSlugChar(r)
  {
    if IsSlugChar(LowerChar(c)) then LowerChar(c) else '-'
  }

  /** Lowercase, then the three replacements, in the source's order. */
  function Normalize(s: string): (r: string)
    ensures |r| == |s|
    ensures forall i :: 0 <= i < |s| ==> r[i] == NormalChar(s[i])
  {
    var lowered := ToLower(s);
    var spaced := ReplaceWhitespace(lowered);
    var punctuated := ReplacePunctuation(spaced);
    var r := ReplaceIllegal(punctuated);
    assert forall i :: 0 <= i < |s| ==> r[i] == NormalChar(s[i]) by {
      forall i | 0 <= i < |s| ensures r[i] == NormalChar(s[i]) {
        ReplacementsAgree(lowered[i]);
      }
    }
    r
  }

  /** The three replacements on one lowercased character keep it exactly
      when it is in `[a-z0-9-]`. */
  lemma ReplacementsAgree(c: char)
    ensures var spaced := DashIf(c, IsJsWhitespace(c) || c == '_');
            var punctuated := DashIf(spaced, IsListedPunctuation(spaced));
            DashIf(punctuated, !IsSlugChar(punctuated)) == if IsSlugChar(c) then c else '-'
  {
    if IsJsWhitespace(c) || c == '_' || IsListedPunctuation(c) {
      assert !IsSlugChar(c);
    }
  }

  /** sanitizeSlug on a decoded path. */
  function Sanitize(s: string): (r: string)
    ensures AllSlugChars(r)
    ensures NoDoubleDash(r)
    ensures NoEdgeDash(r)
  {
    CollapseDashesShape(Normalize(s));
    TrimDashes(CollapseDashes(Normalize(s)))
  }

  /** The letters and digits of a string, in order. */
  function KeepAlnum(s: string): string
  {
    if |s| == 0 then []
    else (if IsLowerAlnum(s[0]) then [s[0]] else []) + KeepAlnum(s[1..])
  }

  lemma {:induction false} RemoveDashesNormalize(s: string)
    ensures RemoveDashes(Normalize(s)) == KeepAlnum(ToLower(s))
  {
    if |s| > 0 {
      assert Normalize(s)[1..] == Normalize(s[1..]);
      assert ToLower(s)[1..] == ToLower(s[1..]);
      RemoveDashesNormalize(s[1..]);
    }
  }

  /** Deleting the dashes from a sanitised slug leaves exactly the ASCII
      letters (lowercased) and digits of the input, in order. */
  lemma SanitizeKeepsAlnum(s: string)
    ensures RemoveDashes(Sanitize(s)) == KeepAlnum(ToLower(s))
  {
    CollapseDashesShape(Normalize(s));
    RemoveDashesNormalize(s);
  }

  lemma NormalizeIdentity(s: string)
    requires AllSlugChars(s)
    ensures Normalize(s) == s
  {
  }

  /** A string already in slug form is left alone. */
  lemma SanitizeFixesSlugs(s: string)
    requires AllSlugChars(s) && NoDoubleDash(s) && NoEdgeDash(s)
    ensures Sanitize(s) == s
  {
    NormalizeIdentity(s);
    CollapseDashesShape(s);
  }

  /** Sanitising twice is sanitising once, so a redirect to the sanitised
      path is not sanitised again. */
  lemma SanitizeIdempotent(s: string)
    ensures Sanitize(Sanitize(s)) == Sanitize(s)
  {
    SanitizeFixesSlugs(Sanitize(s));
  }

  lemma NormalizeExampleBoard()
    ensures Normalize("My Board!!") == "my-board--"
  {
    var r := Normalize("My Board!!");
    forall i | 0 <= i < 10 ensures r[i] == "my-board--"[i] {
      assert r[i] == NormalChar("My Board!!"[i]);
    }
  }

  /** A dash-free word passes through collapsing unchanged. */
  lemma {:induction false} CollapseWord(a: string, b: string)
    requires forall i :: 0 <= i < |a| ==> a[i] != '-'
    ensures CollapseDashes(a + b) == a + CollapseDashes(b)
  {
    if |a| > 0 {
      var ab := a + b;
      assert ab[0] == a[0] && ab[0] != '-';
      assert ab[1..] == a[1..] + b;
      assert CollapseDashes(ab) == [a[0]] + CollapseDashes(a[1..] + b);
      CollapseWord(a[1..], b);
      assert a == [a[0]] + a[1..];
    } else {
      assert a + b == b;
    }
  }

  /** One dash followed by a word: the dash stays. */
  lemma CollapseDashWord(a: string, b: string)
    requires |a| > 0 && forall i :: 0 <= i < |a| ==> a[i] != '-'
    ensures CollapseDashes("-" + a + b) == "-" + a + CollapseDashes(b)
  {
    assert ("-" + a + b)[1..] == a + b;
    CollapseWord(a, b);
  }

  /** A double dash loses its first dash. */
  lemma CollapseDoubleDash(b: string)
    ensures CollapseDashes("--" + b) == CollapseDashes("-" + b)
  {
    assert ("--" + b)[1..] == "-" + b;
  }

  lemma CollapseExampleTail()
    ensures CollapseDashes("--") == "-"
  {
    CollapseDoubleDash("");
    assert "--" + "" == "--" && "-" + "" == "-";
  }

  lemma CollapseExampleWord()
    ensures CollapseDashes("-board--") == "-board-"
  {
    CollapseExampleTail();
    CollapseDashWord("board", "--");
    assert "-" + "board" + "--" == "-board--";
  }

  lemma CollapseExampleBoard()
    ensures CollapseDashes("my-board--") == "my-board-"
  {
    CollapseExampleWord();
    CollapseWord("my", "-board--");
    assert "my" + "-board--" == "my-board--";
  }


  lemma TrimExampleBoard()
    ensures TrimDashes("my-board-") == "my-board"
  {
    assert LeadingDashes("my-board-") == 0;
    assert TrailingDashes("my-board-") == 1;
  }

  lemma SanitizeExampleBoard()
    ensures Sanitize("My Board!!") == "my-board"
  {
    NormalizeExampleBoard();
    CollapseExampleBoard();
    TrimExampleBoard();
  }

  /** A path with no letters or digits sanitises to the empty string. */
  lemma SanitizeExampleEmpty()
    ensures Sanitize("!!!") == ""
  {
    assert NormalChar('!') == '-';
    assert Normalize("!!!") == "---";
    assert CollapseDashes("-") == "-";
    assert CollapseDashes("--") == "-";
    assert CollapseDashes("---") == "-";
    assert LeadingDashes("-") == 1;
  }

  // ---------------------------------------------------------------------------
  // The pass/redirect decision
  // ---------------------------------------------------------------------------

  /** What the proxy answers: let the request through, or redirect to a new
      location with the given status. */
  datatype Response = Next | Redirect(status: int, pathname: string, search: string, hash: string)

  /** Static assets, API routes and framework internals are never rewritten. */
  const IgnoredPrefixes: seq<string> :=
    ["/_next", "/api", "/favicon.ico", "/og.png", "/OpenKanban-Logo.png"]

  predicate StartsWith(s: string, p: string)
  {
    |p| <= |s| && s[..|p|] == p
  }

  predicate Ignored(pathname: string)
  {
    exists i :: 0 <= i < |IgnoredPrefixes| && StartsWith(pathname, IgnoredPrefixes[i])
  }

  /** Path, query and fragment joined, without the leading character. */
  function FullPath(pathname: string, search: string, hash: string): (r: string)
    ensures |pathname| > 0 ==> r == pathname[1..] + search + hash
    ensures |r| == if |pathname + search + hash| == 0 then 0 else |pathname + search + hash| - 1
  {
    var joined := pathname + search + hash;
    if |joined| == 0 then "" else joined[1..]
  }

  /** The proxy's decision. `decode` stands for percent-decoding with the
      piecewise fallback, which is left abstract. */
  function Decide(pathname: string, search: string, hash: string, decode: string -> string): (r: Response)
    ensures pathname == "/" || Ignored(pathname) ==> r == Next
    ensures r.Redirect? ==> r.search == "" && r.hash == ""
    ensures r.Redirect? ==>
              (r.status == 307 && r.pathname == "/") || (r.status == 308 && r.pathname != "/")
    ensures r.Redirect? && r.status == 308 ==>
              |r.pathname| > 1 && r.pathname[0] == '/' &&
              var s := r.pathname[1..];
              s != FullPath(pathname, search, hash)
              && s == Sanitize(decode(FullPath(pathname, search, hash)))
    ensures r == Next && pathname != "/" && !Ignored(pathname) ==>
              var f := FullPath(pathname, search, hash);
              f == "" || f == Sanitize(decode(f))
  {
    if pathname == "/" || Ignored(pathname) then Next
    else
      var fullPath := FullPath(pathname, search, hash);
      if fullPath == "" then Next
      else
        var sanitized := Sanitize(decode(fullPath));
        if sanitized == "" then Redirect(307, "/", "", "")
        else if fullPath != sanitized then Redirect(308, "/" + sanitized, "", "")
        else Next
  }

  /** A decoder that leaves strings without a percent sign alone. */
  ghost predicate DecodesPlainText(decode: string -> string)
  {
    forall t :: '%' !in t ==> decode(t) == t
  }

  /** Following either redirect leads to a request the proxy lets through:
      the proxy never redirects in a loop, provided the decoder leaves the
      sanitised slug alone (it has no '%', so `decodeURIComponent` does). */
  lemma RedirectSettles(pathname: string, search: string, hash: string, decode: string -> string)
    requires Decide(pathname, search, hash, decode).Redirect?
    requires var s := Sanitize(decode(FullPath(pathname, search, hash))); decode(s) == s
    ensures var r := Decide(pathname, search, hash, decode);
            Decide(r.pathname, r.search, r.hash, decode) == Next
  {
    var r := Decide(pathname, search, hash, decode);
    if r.status == 308 {
      var s := r.pathname[1..];
      assert r.pathname == "/" + s;
      assert AllSlugChars(s);
      assert '%' !in s;
      assert FullPath(r.pathname, "", "") == s;
      SanitizeIdempotent(decode(FullPath(pathname, search, hash)));
    }
  }

  /** A path whose sanitised form is itself is let through. */
  lemma CleanPathPasses(slug: string, decode: string -> string)
    requires DecodesPlainText(decode)
    requires slug != "" && Sanitize(slug) == slug
    ensures Decide("/" + slug, "", "", decode) == Next
  {
    var p := "/" + slug;
    assert FullPath(p, "", "") == slug;
    assert '%' !in slug;
  }

  /** A path with a query string is always redirected: '?' never survives
      sanitising. */
  lemma QueryIsRedirected(pathname: string, search: string, hash: string, decode: string -> string)
    requires pathname != "/" && |pathname| > 0 && !Ignored(pathname)
    requires |search| > 0 && search[0] == '?'
    ensures Decide(pathname, search, hash, decode).Redirect?
  {
    var f := FullPath(pathname, search, hash);
    assert f[|pathname| - 1] == '?';
    var s := Sanitize(decode(f));
    assert s != f by {
      assert !IsSlugChar(f[|pathname| - 1]);
    }
  }
}
