/**
 * The string operations the message router uses (`strings.Split`,
 * `strings.Index`/`strings.Replace` with a count of one, `strings.CutPrefix`,
 * `strings.TrimSpace`) and the command parser built from them.
 */
module Text {

  /** The command prefix every command token must match exactly. */
  const Prefix: string := "!gobot"

  // ---------------------------------------------------------------- Split / Join

  /** `strings.Split(s, sep)` for a one-character separator: the pieces between
      separators, one more piece than there are separators. */
  function Split(s: string, sep: char): (r: seq<string>)
    ensures |r| >= 1
  {
    if s == [] then [""]
    else
      var rest := Split(s[1..], sep);
      if s[0] == sep then [""] + rest
      else [[s[0]] + rest[0]] + rest[1..]
  }

  /** `strings.Join(pieces, sep)`: the inverse of Split. */
  function Join(pieces: seq<string>, sep: char): string
  {
    if pieces == [] then ""
    else if |pieces| == 1 then pieces[0]
    else pieces[0] + [sep] + Join(pieces[1..], sep)
  }

  /** Joining the pieces of a split gives back the string, and no piece holds the separator. */
  lemma {:induction false} SplitJoin(s: string, sep: char)
    ensures Join(Split(s, sep), sep) == s
    ensures forall i :: 0 <= i < |Split(s, sep)| ==> sep !in Split(s, sep)[i]
  {
    if s != [] {
      var rest := Split(s[1..], sep);
      SplitJoin(s[1..], sep);
      if s[0] != sep {
        assert s == [s[0]] + s[1..];
        if |rest| > 1 {
          assert Join(rest, sep) == rest[0] + [sep] + Join(rest[1..], sep);
        }
      }
    }
  }

  /** Splitting a join of separator-free pieces gives the pieces back. */
  lemma {:induction false} JoinSplit(pieces: seq<string>, sep: char)
    requires |pieces| >= 1
    requires forall i :: 0 <= i < |pieces| ==> sep !in pieces[i]
    ensures Split(Join(pieces, sep), sep) == pieces
  {
    if |pieces| == 1 {
      SplitOfSeparatorFree(pieces[0], sep);
    } else {
      JoinSplit(pieces[1..], sep);
      SplitAfterPiece(pieces[0], Join(pieces[1..], sep), sep);
      assert [pieces[0]] + pieces[1..] == pieces;
    }
  }

  /** A string without the separator splits into itself alone. */
  lemma {:induction false} SplitOfSeparatorFree(w: string, sep: char)
    requires sep !in w
    ensures Split(w, sep) == [w]
  {
    if w != [] {
      SplitOfSeparatorFree(w[1..], sep);
      assert [w[0]] + w[1..] == w;
    }
  }

  /** Splitting `w + [sep] + t`, with `w` separator-free, yields `w` followed by the pieces of `t`. */
  lemma {:induction false} SplitAfterPiece(w: string, t: string, sep: char)
    requires sep !in w
    ensures Split(w + [sep] + t, sep) == [w] + Split(t, sep)
  {
    if w == [] {
      assert w + [sep] + t == [sep] + t;
      assert ([sep] + t)[1..] == t;
    } else {
      SplitAfterPiece(w[1..], t, sep);
      assert (w + [sep] + t)[1..] == w[1..] + [sep] + t;
      assert [w[0]] + w[1..] == w;
    }
  }

  /** The first piece of a split is the longest separator-free prefix of the string. */
  lemma {:induction false} SplitHead(s: string, sep: char)
    ensures var t := Split(s, sep)[0];
      t <= s && sep !in t && (|t| == |s| || s[|t|] == sep)
  {
    if s != [] {
      SplitHead(s[1..], sep);
    }
  }

  /** The first piece of `w + tail` is `w` when `w` has no separator and `tail` is empty
      or starts with the separator. */
  lemma FirstPieceOf(w: string, tail: string, sep: char)
    requires sep !in w
    requires tail == [] || tail[0] == sep
    ensures Split(w + tail, sep)[0] == w
  {
    if tail == [] {
      SplitOfSeparatorFree(w, sep);
      assert w + tail == w;
    } else {
      SplitAfterPiece(w, tail[1..], sep);
      assert w + tail == w + [sep] + tail[1..];
    }
  }

  // ---------------------------------------------------------------- Index / Replace / CutPrefix

  /** `pat` occurs in `s` at position `j`. */
  predicate OccursAt(s: string, pat: string, j: int)
  {
    0 <= j <= |s| - |pat| && s[j..j + |pat|] == pat
  }

  /** `strings.Index(s, pat)`: the first position where `pat` occurs in `s`, or -1. */
  function Index(s: string, pat: string): (r: int)
    ensures r == -1 || 0 <= r <= |s| - |pat|
    ensures r >= 0 ==> OccursAt(s, pat, r)
    ensures r >= 0 ==> forall j :: 0 <= j < r ==> !OccursAt(s, pat, j)
    ensures r == -1 ==> forall j :: !OccursAt(s, pat, j)
  {
    if |s| < |pat| then -1
    else if s[..|pat|] == pat then 0
    else
      var i := Index(s[1..], pat);
      assert forall j :: 1 <= j ==> (OccursAt(s, pat, j) <==> OccursAt(s[1..], pat, j - 1));
      if i < 0 then -1 else i + 1
  }

  /** `strings.Replace(s, pat, rep, 1)`: the first occurrence of `pat` replaced by `rep`. */
  function ReplaceFirst(s: string, pat: string, rep: string): (r: string)
    ensures Index(s, pat) < 0 ==> r == s
  {
    var i := Index(s, pat);
    if i < 0 then s else s[..i] + rep + s[i + |pat|..]
  }

  /** Replacing the slice `s[i..i + |pat|]`, which is `pat`, by `rep` can be undone. */
  lemma SpliceUndo(s: string, pat: string, rep: string, i: nat)
    requires i + |pat| <= |s| && s[i..i + |pat|] == pat
    ensures var r := s[..i] + rep + s[i + |pat|..];
      && |r| == |s| - |pat| + |rep|
      && r[i..i + |rep|] == rep
      && r[..i] + pat + r[i + |rep|..] == s
  {
    var before, after := s[..i], s[i + |pat|..];
    var r := before + rep + after;
    assert r[..i] == before;
    assert r[i + |rep|..] == after;
    assert s == before + s[i..i + |pat|] + after;
  }

  /** When `pat` occurs, the result holds `rep` where the first occurrence was, and putting
      `pat` back in place of that `rep` gives the original string. */
  lemma ReplaceFirstUndo(s: string, pat: string, rep: string)
    requires Index(s, pat) >= 0
    ensures var i, r := Index(s, pat), ReplaceFirst(s, pat, rep);
      && |r| == |s| - |pat| + |rep|
      && r[i..i + |rep|] == rep
      && r[..i] + pat + r[i + |rep|..] == s
  {
    SpliceUndo(s, pat, rep, Index(s, pat));
  }

  /** `strings.CutPrefix(s, p)`, keeping only the remainder (the router ignores the flag). */
  function CutPrefix(s: string, p: string): (r: string)
    ensures p <= s ==> s == p + r
    ensures !(p <= s) ==> r == s
  {
    if p <= s then s[|p|..] else s
  }

  // ---------------------------------------------------------------- TrimSpace

  /** White space as `strings.TrimSpace` sees it, limited to ASCII. */
  predicate IsSpace(c: char)
  {
    c == ' ' || c == '\t' || c == '\n' || c == '\r' || c == '\U{000B}' || c == '\U{000C}'
  }

  /** The number of white-space characters `s` starts with. */
  function LeadingSpaces(s: string): (n: nat)
    ensures n <= |s|
    ensures forall k :: 0 <= k < n ==> IsSpace(s[k])
    ensures n < |s| ==> !IsSpace(s[n])
  {
    if s != [] && IsSpace(s[0]) then 1 + LeadingSpaces(s[1..]) else 0
  }

  /** The position where the trailing white space of `s` begins. */
  function TrailingStart(s: string): (n: nat)
    ensures n <= |s|
    ensures forall k :: n <= k < |s| ==> IsSpace(s[k])
    ensures n > 0 ==> !IsSpace(s[n - 1])
  {
    if s != [] && IsSpace(s[|s| - 1]) then TrailingStart(s[..|s| - 1]) else |s|
  }

  /** `strings.TrimSpace(s)`: the slice of `s` left after cutting its leading and trailing
      white space; it neither starts nor ends with white space. */
  function TrimSpace(s: string): (r: string)
    ensures LeadingSpaces(s) + |r| <= |s|
    ensures r == s[LeadingSpaces(s)..LeadingSpaces(s) + |r|]
    ensures forall k :: LeadingSpaces(s) + |r| <= k < |s| ==> IsSpace(s[k])
    ensures r != [] ==> !IsSpace(r[0]) && !IsSpace(r[|r| - 1])
  {
    var i := LeadingSpaces(s);
    if i == |s| then [] else s[i..TrailingStart(s)]
  }

  // ---------------------------------------------------------------- Commands

  /** What a message in a guild channel asks for. */
  datatype Command = NoCommand | PromptCommand | AddCommand

  /** A message is a command when its first space-separated token is exactly the prefix. */
  predicate IsCommand(content: string)
  {
    Split(content, ' ')[0] == Prefix
  }

  /** The command word: drop the first occurrence of the prefix, then one leading
      space, then take the first space-separated token. */
  function CommandWord(content: string): string
  {
    var message := ReplaceFirst(content, Prefix, "");
    var message' := CutPrefix(message, " ");
    Split(message', ' ')[0]
  }

  /** The router's dispatch: `dm` prompts, `add` registers, anything else does nothing. */
  function Route(content: string): Command
  {
    if !IsCommand(content) then NoCommand
    else
      match CommandWord(content)
      case "dm" => PromptCommand
      case "add" => AddCommand
      case _ => NoCommand
  }

  /** A message is a command exactly when it is the prefix alone or starts with the prefix and a space. */
  lemma IsCommandIff(content: string)
    ensures IsCommand(content) <==> content == Prefix || Prefix + " " <= content
  {
    SplitHead(content, ' ');
    if content == Prefix {
      FirstPieceOf(Prefix, [], ' ');
      assert Prefix + [] == Prefix;
    } else if Prefix + " " <= content {
      var tail := content[|Prefix|..];
      assert content == Prefix + tail;
      FirstPieceOf(Prefix, tail, ' ');
    } else {
      var t := Split(content, ' ')[0];
      if |t| == |Prefix| && |content| > |Prefix| {
        assert content[..|Prefix| + 1] == t + [content[|Prefix|]];
      }
    }
  }

  /** The first token of `rest` is the non-empty, space-free word `w` exactly when `rest`
      is `w` or starts with `w` and a space. */
  lemma FirstWordIff(rest: string, w: string)
    requires ' ' !in w && w != []
    ensures Split(rest, ' ')[0] == w <==> rest == w || w + " " <= rest
  {
    SplitHead(rest, ' ');
    if rest == w {
      SplitOfSeparatorFree(w, ' ');
    } else if w + " " <= rest {
      assert rest == w + [' '] + rest[|w| + 1..];
      SplitAfterPiece(w, rest[|w| + 1..], ' ');
    }
  }

  /** For a message that starts with the prefix and a space, the command word is the first
      token after that space; the prefix alone has the empty command word. */
  lemma CommandWordAfterPrefix(content: string)
    ensures Prefix + " " <= content ==> CommandWord(content) == Split(content[|Prefix| + 1..], ' ')[0]
    ensures CommandWord(Prefix) == ""
  {
    if Prefix + " " <= content {
      assert OccursAt(content, Prefix, 0);
      var rest := content[|Prefix| + 1..];
      assert ReplaceFirst(content, Prefix, "") == " " + rest;
      assert CutPrefix(" " + rest, " ") == rest;
    }
    assert OccursAt(Prefix, Prefix, 0);
    assert ReplaceFirst(Prefix, Prefix, "") == "";
  }

  /** The command word of `!gobot <w><tail>` is `w` when `w` has no space and `tail` is
      empty or starts with a space. */
  lemma CommandWordOf(w: string, tail: string)
    requires ' ' !in w
    requires tail == [] || tail[0] == ' '
    ensures IsCommand(Prefix + " " + w + tail)
    ensures CommandWord(Prefix + " " + w + tail) == w
  {
    var head := Prefix + " ";
    var c := Prefix + " " + w + tail;
    assert c == head + (w + tail);
    assert head <= c;
    IsCommandIff(c);
    CommandWordAfterPrefix(c);
    assert c[|head|..] == w + tail;
    FirstPieceOf(w, tail, ' ');
  }

  /** Two strings that share a head agree, or are prefix-related, exactly when their tails do. */
  lemma CommonHead(h: string, a: string, b: string)
    ensures h + a == h + b <==> a == b
    ensures h + a <= h + b <==> a <= b
  {
    if h + a == h + b {
      assert a == (h + a)[|h|..] == (h + b)[|h|..] == b;
    }
    if h + a <= h + b {
      assert a == (h + a)[|h|..] == (h + b)[|h|..|h| + |a|] == b[..|a|];
    }
    if a <= b {
      assert h + b == (h + a) + b[|a|..];
    }
  }

  /** A non-empty space-free word `w` is the command word of a message exactly when the
      message is `!gobot w` or starts with `!gobot w` and a space. */
  lemma CommandIs(content: string, w: string)
    requires ' ' !in w && w != []
    ensures IsCommand(content) && CommandWord(content) == w <==>
      content == Prefix + " " + w || Prefix + " " + w + " " <= content
  {
    var head := Prefix + " ";
    IsCommandIff(content);
    CommandWordAfterPrefix(content);
    assert head + w + " " == head + (w + " ");
    if head <= content {
      var rest := content[|head|..];
      assert content == head + rest;
      FirstWordIff(rest, w);
      CommonHead(head, w, rest);
      CommonHead(head, w + " ", rest);
    } else {
      CommonHead(head, [], w);
      CommonHead(head, [], w + " ");
      assert head + [] == head;
    }
  }

  /** The router's choice in terms of the command word. */
  lemma RouteByCommandWord(content: string)
    ensures Route(content) == PromptCommand <==> IsCommand(content) && CommandWord(content) == "dm"
    ensures Route(content) == AddCommand <==> IsCommand(content) && CommandWord(content) == "add"
  {
  }

  /** `!gobot dm ...` prompts and `!gobot add ...` registers, and no other message does. */
  lemma RouteByWord(content: string)
    ensures Route(content) == PromptCommand <==> content == Prefix + " dm" || Prefix + " dm " <= content
    ensures Route(content) == AddCommand <==> content == Prefix + " add" || Prefix + " add " <= content
  {
    RouteByCommandWord(content);
    CommandIs(content, "dm");
    assert Prefix + " dm" == Prefix + " " + "dm";
    assert Prefix + " dm " == Prefix + " " + "dm" + " ";
    CommandIs(content, "add");
    assert Prefix + " add" == Prefix + " " + "add";
    assert Prefix + " add " == Prefix + " " + "add" + " ";
  }

  /** A message whose first token is not the prefix is not a command. */
  lemma NotACommand(content: string)
    requires Split(content, ' ')[0] != Prefix
    ensures Route(content) == NoCommand
  {
  }

  /** `!gobot` alone, or followed by two spaces, has the empty command word and does nothing. */
  lemma EmptyCommandWord(rest: string)
    ensures CommandWord(Prefix) == "" && Route(Prefix) == NoCommand
    ensures CommandWord(Prefix + "  " + rest) == "" && Route(Prefix + "  " + rest) == NoCommand
  {
    CommandWordAfterPrefix(Prefix);
    CommandWordOf("", " " + rest);
    assert Prefix + " " + "" + (" " + rest) == Prefix + "  " + rest;
  }
}
