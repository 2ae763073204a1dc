/** The title and the presence badge of the board toolbar
    (src/components/board/board-toolbar.tsx). The title is the slug with
    dashes shown as spaces, cut after five words; the badge shows when
    someone else is viewing or the live connection is down. */
module Toolbar {
  import opened Wrappers

  /** The number of words shown before the title is cut. */
  const MaxTitleWords: nat := 5

  /** The slug with every dash shown as a space. */
  function FormattedTitle(slug: string): (r: string)
    ensures |r| == |slug|
    ensures forall i :: 0 <= i < |slug| ==> (r[i] == ' ' <==> slug[i] == '-' || slug[i] == ' ')
    ensures forall i :: 0 <= i < |slug| ==> r[i] != ' ' ==> r[i] == slug[i]
  {
    seq(|slug|, i requires 0 <= i < |slug| => if slug[i] == '-' then ' ' else slug[i])
  }

  /** JavaScript's `split(" ")`: the pieces between single spaces. There is
      always at least one piece, and two adjacent spaces give an empty
      one. */
  function Split(s: string): (ws: seq<string>)
    ensures |ws| >= 1
    ensures forall i :: 0 <= i < |ws| ==> ' ' !in ws[i]
    decreases |s|
  {
    if |s| == 0 then [""]
    else
      var rest := Split(s[1..]);
      if s[0] == ' ' then [""] + rest
      else [[s[0]] + rest[0]] + rest[1..]
  }

  /** JavaScript's `join(" ")` on a non-empty list. */
  function Join(ws: seq<string>): string
    requires |ws| >= 1
    decreases |ws|
  {
    if |ws| == 1 then ws[0] else ws[0] + " " + Join(ws[1..])
  }

  /** Joining the pieces gives back the text that was split. */
  lemma {:induction false} JoinSplit(s: string)
    ensures Join(Split(s)) == s
    decreases |s|
  {
    if |s| > 0 {
      var rest := Split(s[1..]);
      JoinSplit(s[1..]);
      if s[0] == ' ' {
        assert ([""] + rest)[1..] == rest;
        assert s == [s[0]] + s[1..];
      } else {
        var ws := [[s[0]] + rest[0]] + rest[1..];
        assert ws[1..] == rest[1..];
        if |rest| > 1 {
          assert Join(rest) == rest[0] + " " + Join(rest[1..]);
        }
        assert s == [s[0]] + s[1..];
      }
    }
  }

  /** Splitting a join of space-free pieces gives back the pieces. */
  lemma {:induction false} SplitJoin(ws: seq<string>)
    requires |ws| >= 1
    requires forall i :: 0 <= i < |ws| ==> ' ' !in ws[i]
    ensures Split(Join(ws)) == ws
    decreases |ws|, |ws[0]|
  {
    if |ws[0]| == 0 {
      if |ws| > 1 {
        SplitJoin(ws[1..]);
        var j := Join(ws);
        assert j == " " + Join(ws[1..]);
        assert j[1..] == Join(ws[1..]);
        assert Split(j) == [""] + ws[1..];
        assert ws == [ws[0]] + ws[1..];
      }
    } else {
      var c := ws[0][0];
      var shorter := ws[0 := ws[0][1..]];
      assert ' ' !in shorter[0] by {
        assert forall k :: 0 <= k < |shorter[0]| ==> shorter[0][k] == ws[0][k + 1];
      }
      SplitJoin(shorter);
      assert shorter[1..] == ws[1..];
      var j := Join(ws);
      assert j == [c] + Join(shorter) by {
        assert ws[0] == [c] + shorter[0];
      }
      assert j[0] == c && j[1..] == Join(shorter);
      assert c != ' ' by { assert ws[0][0] in ws[0]; }
      assert ws[0] == [c] + shorter[0];
      assert ws == [ws[0]] + ws[1..];
    }
  }

  /** A join splits into the join of the first `k` pieces, a space, and the
      join of the rest. */
  lemma {:induction false} JoinPrefix(ws: seq<string>, k: nat)
    requires 1 <= k < |ws|
    ensures Join(ws) == Join(ws[..k]) + " " + Join(ws[k..])
    decreases k
  {
    if k > 1 {
      JoinPrefix(ws[1..], k - 1);
      assert ws[1..][..k - 1] == ws[..k][1..];
      assert ws[1..][k - 1..] == ws[k..];
    }
  }

  /** The words of the formatted title. */
  function TitleWords(slug: string): (ws: seq<string>)
    ensures |ws| >= 1 && Join(ws) == FormattedTitle(slug)
  {
    JoinSplit(FormattedTitle(slug));
    Split(FormattedTitle(slug))
  }

  /** The heading: the formatted title when it has at most five words,
      otherwise its first five words followed by "...". */
  function DisplayTitle(slug: string): string
  {
    var ws := TitleWords(slug);
    if |ws| > MaxTitleWords then Join(ws[..MaxTitleWords]) + "..." else FormattedTitle(slug)
  }

  /** A title of at most five words is shown whole. */
  lemma ShortTitleShownWhole(slug: string)
    requires |TitleWords(slug)| <= MaxTitleWords
    ensures DisplayTitle(slug) == FormattedTitle(slug)
  {
  }

  /** A longer title is shown as a prefix of the formatted title that ends
      just before a space, holds exactly the first five words, and is
      followed by "...". */
  lemma LongTitleCut(slug: string)
    requires |TitleWords(slug)| > MaxTitleWords
    ensures exists p :: && DisplayTitle(slug) == p + "..."
                        && |p| < |FormattedTitle(slug)|
                        && FormattedTitle(slug)[..|p|] == p && FormattedTitle(slug)[|p|] == ' '
                        && Split(p) == TitleWords(slug)[..MaxTitleWords]
  {
    var ws := TitleWords(slug);
    var f := FormattedTitle(slug);
    var p := Join(ws[..MaxTitleWords]);
    JoinPrefix(ws, MaxTitleWords);
    assert f == p + " " + Join(ws[MaxTitleWords..]);
    assert f[..|p|] == p;
    assert f[|p|] == ' ';
    SplitJoin(ws[..MaxTitleWords]);
    assert DisplayTitle(slug) == p + "...";
  }

  /** What the presence badge shows: the viewer count, next to a dot that
      is green and pulsing on a live connection and red and still when the
      connection is down. */
  datatype Badge = Badge(count: int, live: bool)

  /** The presence badge, or `None` when it is hidden: it shows whenever
      someone else is viewing or the live connection is down. */
  function PresenceBadge(viewerCount: int, isConnected: bool): (b: Option<Badge>)
    ensures b.None? <==> viewerCount <= 1 && isConnected
    ensures b.Some? ==> b.value.count == viewerCount && (b.value.live <==> isConnected)
  {
    if viewerCount > 1 || !isConnected then Some(Badge(viewerCount, isConnected)) else None
  }
}
