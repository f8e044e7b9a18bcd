/**
 * Mentions written `<@M:id>` or `<@M:id|label>` in channel messages: the two scanners against the
 * printed form and against each other (backend/open_webui/utils/channels.py:4-31).
 */
module Mentions {
  import opened Basics

  datatype Mention = Mention(kind: char, id: string, caption: Option<string>)

  /** How far the string goes before one of the characters, or its end. */
  function Run(s: string, stops: set<char>): (n: nat)
    ensures n <= |s|
  {
    if s == "" || s[0] in stops then 0 else 1 + Run(s[1..], stops)
  }

  const ID_STOPS := {'|', '>'}
  const LABEL_STOPS := {'>'}

  /** `<`, the trigger, a capital, a colon and the first character of an id. */
  predicate Opens(s: string, t: char) {
    |s| > 4 && s[0] == '<' && s[1] == t && 'A' <= s[2] <= 'Z' && s[3] == ':' && s[4] !in ID_STOPS
  }

  /** Where the id that starts at the fifth character ends. */
  function IdEnd(s: string): (n: nat)
    requires |s| > 4
    ensures 4 <= n <= |s|
  {
    4 + Run(s[4..], ID_STOPS)
  }

  lemma {:induction false} RunStops(s: string, stops: set<char>)
    ensures forall i :: 0 <= i < Run(s, stops) ==> s[i] !in stops
    ensures Run(s, stops) < |s| ==> s[Run(s, stops)] in stops
  {
    if s != "" && s[0] !in stops {
      RunStops(s[1..], stops);
    }
  }

  lemma {:induction false} RunIs(a: string, b: string, stops: set<char>)
    requires (forall c :: c in a ==> c !in stops) && (b == "" || b[0] in stops)
    ensures Run(a + b, stops) == |a|
  {
    if a == "" {
      assert a + b == b;
    } else {
      assert (a + b)[1..] == a[1..] + b && a[0] in a;
      RunIs(a[1..], b, stops);
    }
  }

  // ----- extract_mentions ----------------------------------------------------------------------------

  function Extract(s: string, t: char): seq<(char, string)>
    decreases |s|
  {
    if s == "" then []
    else if Opens(s, t) then [(s[2], s[4..IdEnd(s)])] + Extract(s[IdEnd(s)..], t)
    else Extract(s[1..], t)
  }

  // ----- replace_mentions ----------------------------------------------------------------------------

  function Tail(caption: Option<string>): string {
    (if caption.Some? then "|" + caption.value else "") + ">"
  }

  function Print(m: Mention, t: char): string {
    ['<', t, m.kind, ':'] + m.id + Tail(m.caption)
  }

  /** After the id: the bracket, or a bar, a label and the bracket; None when neither follows. */
  function TailAt(rest: string): Option<Option<string>> {
    if rest == "" then None
    else if rest[0] == '>' then Some(None)
    else
      var n := Run(rest[1..], LABEL_STOPS);
      if n > 0 && 1 + n < |rest| then Some(Some(rest[1..1 + n])) else None
  }

  /** The mention that starts a string. */
  function MatchAt(s: string, t: char): Option<Mention> {
    if !Opens(s, t) then None
    else match TailAt(s[IdEnd(s)..])
      case None => None
      case Some(caption) => Some(Mention(s[2], s[4..IdEnd(s)], caption))
  }

  predicate Printable(m: Mention) {
    && 'A' <= m.kind <= 'Z'
    && m.id != "" && '|' !in m.id && '>' !in m.id
    && Labelled(m.caption)
  }

  predicate Labelled(caption: Option<string>) {
    caption.Some? ==> caption.value != "" && '>' !in caption.value
  }

  lemma TailPrinted(caption: Option<string>, rest: string)
    requires Labelled(caption)
    ensures TailAt(Tail(caption) + rest) == Some(caption)
  {
    var s := Tail(caption) + rest;
    if caption.Some? {
      assert s[1..] == caption.value + (">" + rest);
      RunIs(caption.value, ">" + rest, LABEL_STOPS);
      assert s[1..1 + |caption.value|] == caption.value;
    }
  }

  lemma PrintedMatches(m: Mention, t: char, rest: string)
    requires Printable(m)
    ensures MatchAt(Print(m, t) + rest, t) == Some(m)
    ensures Opens(Print(m, t) + rest, t) && IdEnd(Print(m, t) + rest) == 4 + |m.id|
  {
    var s := Print(m, t) + rest;
    var tail := Tail(m.caption) + rest;
    assert s[4..] == m.id + tail;
    assert s[4] == m.id[0] && m.id[0] in m.id;
    RunIs(m.id, tail, ID_STOPS);
    assert s[4..IdEnd(s)] == m.id && s[IdEnd(s)..] == tail;
    TailPrinted(m.caption, rest);
  }

  lemma IdIsRun(s: string, n: nat)
    requires 4 <= n <= |s| && n == 4 + Run(s[4..], ID_STOPS)
    ensures forall c :: c in s[4..n] ==> c !in ID_STOPS
  {
    RunStops(s[4..], ID_STOPS);
    forall c | c in s[4..n] ensures c !in ID_STOPS {
      var i :| 0 <= i < n - 4 && s[4..n][i] == c;
      assert s[4..][i] == c;
    }
  }

  lemma TailIsPrinted(rest: string)
    requires TailAt(rest).Some? && rest[0] in ID_STOPS
    ensures Tail(TailAt(rest).value) <= rest && Labelled(TailAt(rest).value)
  {
    var caption := TailAt(rest).value;
    if caption.Some? {
      var k := Run(rest[1..], LABEL_STOPS);
      RunStops(rest[1..], LABEL_STOPS);
      assert rest[0] == '|' && rest[1..][k] == '>';
      assert rest == "|" + caption.value + ">" + rest[2 + k..];
    } else {
      assert rest == ">" + rest[1..];
    }
  }

  lemma MatchIsPrinted(s: string, t: char)
    requires MatchAt(s, t).Some?
    ensures Printable(MatchAt(s, t).value) && Print(MatchAt(s, t).value, t) <= s
  {
    var m, n := MatchAt(s, t).value, IdEnd(s);
    IdIsRun(s, n);
    RunStops(s[4..], ID_STOPS);
    TailIsPrinted(s[n..]);
    assert s == ['<', t, m.kind, ':'] + m.id + s[n..];
  }

  /** The match at a position is exactly the printable mention printed there. */
  lemma MatchesExactlyPrinted(s: string, t: char, m: Mention)
    ensures MatchAt(s, t) == Some(m) <==> Printable(m) && Print(m, t) <= s
  {
    if Printable(m) && Print(m, t) <= s {
      PrintedMatches(m, t, s[|Print(m, t)|..]);
      assert s == Print(m, t) + s[|Print(m, t)|..];
    }
    if MatchAt(s, t) == Some(m) {
      MatchIsPrinted(s, t);
    }
  }

  datatype Token = Char(c: char) | Hit(mention: Mention)

  /**
   * A message cut into replaced mentions and the characters between.  A match is never longer than the
   * text it was found in (MatchIsPrinted), so the length guard always holds.
   */
  function Tokens(s: string, t: char): seq<Token>
    decreases |s|
  {
    if s == "" then []
    else
      var m := MatchAt(s, t);
      if m.Some? && |Print(m.value, t)| <= |s|
      then [Hit(m.value)] + Tokens(s[|Print(m.value, t)|..], t)
      else [Char(s[0])] + Tokens(s[1..], t)
  }

  function ShownMention(m: Mention, useLabel: bool): string {
    if useLabel && m.caption.Some? && m.caption.value != "" then m.caption.value else m.id
  }

  function Shown(tokens: seq<Token>, useLabel: bool): string {
    if tokens == [] then ""
    else (match tokens[0]
          case Char(c) => [c]
          case Hit(m) => ShownMention(m, useLabel)) + Shown(tokens[1..], useLabel)
  }

  function Replace(s: string, t: char, useLabel: bool): string {
    Shown(Tokens(s, t), useLabel)
  }

  function Hits(tokens: seq<Token>): seq<(char, string)> {
    if tokens == [] then []
    else (match tokens[0]
          case Char(_) => []
          case Hit(m) => [(m.kind, m.id)]) + Hits(tokens[1..])
  }

  /** What replace_mentions replaces. */
  function Replaced(s: string, t: char): seq<(char, string)> {
    Hits(Tokens(s, t))
  }

  function Unread(tokens: seq<Token>, t: char): string {
    if tokens == [] then ""
    else (match tokens[0]
          case Char(c) => [c]
          case Hit(m) => Print(m, t)) + Unread(tokens[1..], t)
  }

  /** Cutting loses nothing: printing the pieces gives the message back. */
  lemma {:induction false} TokensLossless(s: string, t: char)
    ensures Unread(Tokens(s, t), t) == s
    decreases |s|
  {
    if s != "" {
      var m := MatchAt(s, t);
      if m.Some? {
        MatchIsPrinted(s, t);
        TokensLossless(s[|Print(m.value, t)|..], t);
      } else {
        TokensLossless(s[1..], t);
      }
    }
  }

  // ----- round trip ----------------------------------------------------------------------------------

  /** Text in which no mention starts. */
  predicate Plain(s: string, t: char) {
    forall i :: 0 <= i < |s| - 1 ==> !(s[i] == '<' && s[i + 1] == t)
  }

  /** A message is a text and mentions each followed by a text. */
  datatype Item = Item(mention: Mention, text: string)

  function Printed(text: string, items: seq<Item>, t: char): string
    decreases |items|
  {
    if items == [] then text else text + Print(items[0].mention, t) + Printed(items[0].text, items[1..], t)
  }

  predicate ItemFits(item: Item, t: char) {
    && Printable(item.mention) && Plain(item.text, t)
    && (item.mention.caption.Some? ==> Plain(item.mention.caption.value, t))
  }

  predicate Fits(text: string, items: seq<Item>, t: char) {
    && t != '<' && t != '>'
    && Plain(text, t) && forall i :: 0 <= i < |items| ==> ItemFits(items[i], t)
  }

  function ItemHits(items: seq<Item>): seq<(char, string)> {
    if items == [] then [] else [(items[0].mention.kind, items[0].mention.id)] + ItemHits(items[1..])
  }

  function ShownItems(text: string, items: seq<Item>, useLabel: bool): string
    decreases |items|
  {
    if items == [] then text
    else text + ShownMention(items[0].mention, useLabel) + ShownItems(items[0].text, items[1..], useLabel)
  }

  lemma NothingOpens(text: string, rest: string, t: char)
    requires t != '<' && Plain(text, t) && text != "" && (rest == "" || rest[0] == '<')
    ensures !Opens(text + rest, t) && Plain(text[1..], t)
  {
  }

  /** Both scanners pass over plain text. */
  lemma {:induction false} ExtractPasses(text: string, rest: string, t: char)
    requires t != '<' && Plain(text, t) && (rest == "" || rest[0] == '<')
    ensures Extract(text + rest, t) == Extract(rest, t)
  {
    if text == "" {
      assert text + rest == rest;
    } else {
      NothingOpens(text, rest, t);
      assert (text + rest)[1..] == text[1..] + rest;
      ExtractPasses(text[1..], rest, t);
    }
  }

  lemma {:induction false} ReplacePasses(text: string, rest: string, t: char, useLabel: bool)
    requires t != '<' && Plain(text, t) && (rest == "" || rest[0] == '<')
    ensures Replace(text + rest, t, useLabel) == text + Replace(rest, t, useLabel)
  {
    if text == "" {
      assert text + rest == rest;
    } else {
      NothingOpens(text, rest, t);
      ReplacePasses(text[1..], rest, t, useLabel);
      ReplaceSkips(text + rest, t, useLabel);
      HeadFirst(text, rest);
      HeadFirst(text, Replace(rest, t, useLabel));
    }
  }

  lemma HeadFirst(text: string, rest: string)
    requires text != ""
    ensures (text + rest)[0] == text[0] && (text + rest)[1..] == text[1..] + rest
    ensures text + rest == [text[0]] + (text[1..] + rest)
  {
  }

  lemma ReplaceSkips(s: string, t: char, useLabel: bool)
    requires s != "" && MatchAt(s, t).None?
    ensures Replace(s, t, useLabel) == [s[0]] + Replace(s[1..], t, useLabel)
  {
  }

  /** A mention alone is replaced by its label, if it has one and labels are asked for, else by its id. */
  lemma MentionShown(m: Mention, t: char)
    requires Printable(m)
    ensures Replace(Print(m, t), t, false) == m.id
    ensures Replace(Print(m, t), t, true) == if m.caption.Some? then m.caption.value else m.id
  {
    assert Print(m, t) + "" == Print(m, t);
    ReplaceMention(m, "", t, false);
    ReplaceMention(m, "", t, true);
  }

  lemma ReplaceMention(m: Mention, rest: string, t: char, useLabel: bool)
    requires Printable(m)
    ensures Replace(Print(m, t) + rest, t, useLabel) == ShownMention(m, useLabel) + Replace(rest, t, useLabel)
  {
    var s := Print(m, t) + rest;
    PrintedMatches(m, t, rest);
    assert s[|Print(m, t)|..] == rest;
    assert Tokens(s, t) == [Hit(m)] + Tokens(rest, t);
    assert Tokens(s, t)[1..] == Tokens(rest, t);
  }

  lemma ExtractMention(m: Mention, rest: string, t: char)
    requires Printable(m)
    ensures Extract(Print(m, t) + rest, t) == [(m.kind, m.id)] + Extract(Tail(m.caption) + rest, t)
  {
    var s := Print(m, t) + rest;
    PrintedMatches(m, t, rest);
    assert s[4..4 + |m.id|] == m.id && s[4 + |m.id|..] == Tail(m.caption) + rest;
  }

  lemma TailPlain(m: Mention, text: string, t: char)
    requires t != '>' && t != '<' && Plain(text, t) && (m.caption.Some? ==> Plain(m.caption.value, t))
    ensures Plain(Tail(m.caption) + text, t)
  {
  }

  lemma PrintedShifts(prefix: string, text: string, items: seq<Item>, t: char)
    ensures Printed(prefix + text, items, t) == prefix + Printed(text, items, t)
  {
  }

  lemma ItemsFit(text: string, items: seq<Item>, t: char)
    requires Fits(text, items, t) && items != []
    ensures ItemFits(items[0], t) && Fits(items[0].text, items[1..], t)
  {
  }

  /** extract_mentions gives back exactly the mentions of a printed message, in order. */
  lemma {:induction false} ExtractsPrinted(text: string, items: seq<Item>, t: char)
    requires Fits(text, items, t)
    ensures Extract(Printed(text, items, t), t) == ItemHits(items)
    decreases |items|
  {
    if items == [] {
      ExtractPasses(text, "", t);
      assert text + "" == text;
    } else {
      var m, next, rest := items[0].mention, items[0].text, items[1..];
      ItemsFit(text, items, t);
      TailPlain(m, next, t);
      ExtractsPrinted(Tail(m.caption) + next, rest, t);
      PrintedShifts(Tail(m.caption), next, rest, t);
      ExtractsFirst(text, m, Printed(next, rest, t), t);
    }
  }

  lemma ExtractsFirst(text: string, m: Mention, more: string, t: char)
    requires t != '<' && Plain(text, t) && Printable(m)
    ensures Extract(text + Print(m, t) + more, t) == [(m.kind, m.id)] + Extract(Tail(m.caption) + more, t)
  {
    ExtractPasses(text, Print(m, t) + more, t);
    assert text + Print(m, t) + more == text + (Print(m, t) + more);
    ExtractMention(m, more, t);
  }

  /** replace_mentions leaves the texts and puts each label, or the id where there is none, between them. */
  lemma {:induction false} ReplacesPrinted(text: string, items: seq<Item>, t: char, useLabel: bool)
    requires Fits(text, items, t)
    ensures Replace(Printed(text, items, t), t, useLabel) == ShownItems(text, items, useLabel)
    decreases |items|
  {
    if items == [] {
      ReplacePasses(text, "", t, useLabel);
      assert text + "" == text;
    } else {
      var m, next, rest := items[0].mention, items[0].text, items[1..];
      var more := Printed(next, rest, t);
      ItemsFit(text, items, t);
      ReplacePasses(text, Print(m, t) + more, t, useLabel);
      assert text + Print(m, t) + more == text + (Print(m, t) + more);
      ReplaceMention(m, more, t, useLabel);
      ReplacesPrinted(next, rest, t, useLabel);
    }
  }

  // ----- the two scanners on any message -------------------------------------------------------------

  predicate Within(a: seq<(char, string)>, b: seq<(char, string)>) {
    a == [] || (b != [] && ((a[0] == b[0] && Within(a[1..], b[1..])) || Within(a, b[1..])))
  }

  lemma {:induction false} WithinMore(a: seq<(char, string)>, x: seq<(char, string)>, b: seq<(char, string)>)
    requires Within(a, b)
    ensures Within(a, x + b)
  {
    if x == [] {
      assert x + b == b;
    } else {
      WithinMore(a, x[1..], b);
      assert (x + b)[1..] == x[1..] + b;
    }
  }

  lemma {:induction false} RunCut(a: string, rest: string)
    requires '>' !in a
    ensures Run(a + ">" + rest, ID_STOPS) == Run(a + ">", ID_STOPS) <= |a|
  {
    var s, u := a + ">" + rest, a + ">";
    if a != "" {
      assert s[0] == a[0] == u[0];
      assert s[1..] == a[1..] + ">" + rest && u[1..] == a[1..] + ">";
      RunCut(a[1..], rest);
    }
  }

  lemma OpensBefore(u: string, rest: string, t: char)
    requires '>' !in u && t != '>'
    ensures Opens(u + ">" + rest, t) == Opens(u + ">", t)
    ensures Opens(u + ">", t) ==> |u| > 4
  {
  }

  lemma OpenedBefore(u: string, rest: string, t: char)
    requires '>' !in u && |u| > 4
    ensures var n := IdEnd(u + ">");
      n <= |u| && IdEnd(u + ">" + rest) == n && (u + ">" + rest)[4..n] == (u + ">")[4..n]
      && (u + ">" + rest)[n..] == u[n..] + ">" + rest && (u + ">")[n..] == u[n..] + ">"
  {
    assert (u + ">" + rest)[4..] == u[4..] + ">" + rest && (u + ">")[4..] == u[4..] + ">";
    RunCut(u[4..], rest);
  }

  /** No extracted mention runs over a `>`. */
  lemma {:induction false} ExtractSplits(u: string, rest: string, t: char)
    requires '>' !in u && t != '>'
    ensures Extract(u + ">" + rest, t) == Extract(u + ">", t) + Extract(rest, t)
    decreases |u|
  {
    OpensBefore(u, rest, t);
    if u == "" {
      assert (u + ">" + rest)[1..] == rest && (u + ">")[1..] == "";
    } else if Opens(u + ">", t) {
      var n := IdEnd(u + ">");
      OpenedBefore(u, rest, t);
      ExtractSplits(u[n..], rest, t);
      assert (u + ">" + rest)[2] == (u + ">")[2];
    } else {
      assert (u + ">" + rest)[1..] == u[1..] + ">" + rest && (u + ">")[1..] == u[1..] + ">";
      ExtractSplits(u[1..], rest, t);
    }
  }

  lemma {:induction false} SkipUnmatched(s: string, t: char, n: nat)
    requires n <= |s| && forall i :: 0 <= i < n ==> MatchAt(s[i..], t).None?
    ensures Replaced(s, t) == Replaced(s[n..], t)
  {
    if n == 0 {
      assert s[0..] == s;
    } else {
      assert s[0..] == s;
      forall i | 0 <= i < n - 1 ensures MatchAt(s[1..][i..], t).None? {
        assert s[1..][i..] == s[i + 1..];
      }
      SkipUnmatched(s[1..], t, n - 1);
      assert s[1..][n - 1..] == s[n..];
      assert Tokens(s, t)[1..] == Tokens(s[1..], t);
    }
  }

  lemma {:induction false} RunTail(s: string, k: nat)
    requires k <= Run(s, ID_STOPS)
    ensures Run(s[k..], ID_STOPS) == Run(s, ID_STOPS) - k
  {
    if k == 0 {
      assert s[0..] == s;
    } else {
      RunTail(s[1..], k - 1);
      assert s[1..][k - 1..] == s[k..];
    }
  }

  /** A place that looks like a mention's start inside an id ends where that id ends. */
  lemma OpensInside(s: string, t: char, i: nat)
    requires t !in {'<', '>', '|'} && Opens(s, t) && 0 < i < IdEnd(s) && Opens(s[i..], t)
    ensures 4 <= i && i + IdEnd(s[i..]) == IdEnd(s)
  {
    var n := IdEnd(s);
    assert s[i] == '<' && s[i + 1] == t && s[i + 3] == ':' && s[i + 2] == s[i..][2] && s[i + 4] == s[i..][4];
    RunStops(s[4..], ID_STOPS);
    assert n < |s| ==> s[n] == s[4..][n - 4];
    RunTail(s[4..], i);
    assert s[4..][i..] == s[i..][4..];
  }

  lemma UnmatchedInside(s: string, t: char, i: nat)
    requires t !in {'<', '>', '|'} && Opens(s, t) && MatchAt(s, t).None? && i < IdEnd(s)
    ensures MatchAt(s[i..], t).None?
  {
    if i == 0 {
      assert s[0..] == s;
    } else if Opens(s[i..], t) {
      OpensInside(s, t, i);
      assert s[i..][IdEnd(s[i..])..] == s[IdEnd(s)..];
    }
  }

  /**
   * On every message, printed or not, the mentions that are replaced are among those extracted, in
   * the same order: the text shown never hides a mention the handlers have not seen.
   */
  lemma {:induction false} ReplacedAreExtracted(s: string, t: char)
    requires t !in {'<', '>', '|'}
    ensures Within(Replaced(s, t), Extract(s, t))
    decreases |s|
  {
    if s != "" {
      var m := MatchAt(s, t);
      if m.Some? {
        MatchIsPrinted(s, t);
        var rest := s[|Print(m.value, t)|..];
        assert s == Print(m.value, t) + rest;
        ReplacedAreExtracted(rest, t);
        ExtractMention(m.value, rest, t);
        TailPasses(m.value, rest, t);
        assert Replaced(s, t) == [(m.value.kind, m.value.id)] + Replaced(rest, t) by {
          assert Tokens(s, t)[1..] == Tokens(rest, t);
        }
      } else if Opens(s, t) {
        var n := IdEnd(s);
        forall i | 0 <= i < n ensures MatchAt(s[i..], t).None? {
          UnmatchedInside(s, t, i);
        }
        SkipUnmatched(s, t, n);
        ReplacedAreExtracted(s[n..], t);
        WithinMore(Replaced(s, t), [(s[2], s[4..n])], Extract(s[n..], t));
      } else {
        ReplacedAreExtracted(s[1..], t);
        assert s[0..] == s;
        SkipUnmatched(s, t, 1);
      }
    }
  }

  lemma TailPasses(m: Mention, rest: string, t: char)
    requires Printable(m) && t != '>' && Within(Replaced(rest, t), Extract(rest, t))
    ensures Within(Replaced(rest, t), Extract(Tail(m.caption) + rest, t))
  {
    var u := if m.caption.Some? then "|" + m.caption.value else "";
    assert Tail(m.caption) + rest == u + ">" + rest;
    ExtractSplits(u, rest, t);
    WithinMore(Replaced(rest, t), Extract(u + ">", t), Extract(rest, t));
  }
}
