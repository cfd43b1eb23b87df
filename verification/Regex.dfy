/** The pattern matcher of the grep utility: match, matchhere and matchstar.
    C strings are sequences of characters without the final NUL: a test of the character behind the end, which reads
    that NUL, is a test of the length here. */
module Regex {

  // What a pattern denotes.  A starred item repeats one character; the
  // character '.' stands for any.
  datatype Item = One(c: char) | Star(c: char)
  datatype Pattern = Pattern(items: seq<Item>, toEnd: bool)

  predicate Fits(c: char, x: char) {
    c == '.' || c == x
  }

  predicate Piece(item: Item, s: string) {
    match item
    case One(c) => |s| == 1 && Fits(c, s[0])
    case Star(c) => forall i :: 0 <= i < |s| ==> Fits(c, s[i])
  }

  function Join(pieces: seq<string>): string {
    if pieces == [] then [] else pieces[0] + Join(pieces[1..])
  }

  // s is cut into one piece per item.
  ghost predicate Splits(items: seq<Item>, pieces: seq<string>, s: string) {
    && |pieces| == |items|
    && Join(pieces) == s
    && forall i :: 0 <= i < |items| ==> Piece(items[i], pieces[i])
  }

  ghost predicate InLanguage(items: seq<Item>, s: string) {
    exists pieces :: Splits(items, pieces, s)
  }

  // The pattern matches at the front of text: a prefix is in its language,
  // the whole of it when the pattern ends in '$'.
  ghost predicate PrefixOf(p: Pattern, n: nat, text: string) {
    n <= |text| && InLanguage(p.items, text[..n]) && (p.toEnd ==> n == |text|)
  }

  ghost predicate AtFront(p: Pattern, text: string) {
    exists n: nat :: PrefixOf(p, n, text)
  }

  // How a pattern is written.
  function Parse(re: string): Pattern {
    if re == [] then Pattern([], false)
    else if 1 < |re| && re[1] == '*' then Prepend(Star(re[0]), Parse(re[2..]))
    else if re == "$" then Pattern([], true)
    else Prepend(One(re[0]), Parse(re[1..]))
  }

  function Prepend(item: Item, p: Pattern): Pattern {
    Pattern([item] + p.items, p.toEnd)
  }

  function Show(p: Pattern): string
    decreases |p.items|
  {
    if p.items == [] then (if p.toEnd then "$" else "")
    else
      var rest := Show(Pattern(p.items[1..], p.toEnd));
      match p.items[0]
      case One(c) => [c] + rest
      case Star(c) => [c, '*'] + rest
  }

  // Reading a pattern loses nothing: every string is some pattern's text.
  lemma {:induction false} ShowParse(re: string)
    ensures Show(Parse(re)) == re
  {
    if re == [] || re == "$" {
    } else if 1 < |re| && re[1] == '*' {
      var p := Parse(re[2..]);
      ShowParse(re[2..]);
      assert ([Star(re[0])] + p.items)[1..] == p.items;
      assert re == [re[0], '*'] + re[2..];
    } else {
      var p := Parse(re[1..]);
      ShowParse(re[1..]);
      assert ([One(re[0])] + p.items)[1..] == p.items;
      assert re == [re[0]] + re[1..];
    }
  }

  // The empty item list matches everywhere, or only at the end of the text.
  lemma FrontNone(p: Pattern, text: string)
    requires p.items == []
    ensures AtFront(p, text) <==> (p.toEnd ==> text == [])
  {
    assert Splits([], [], text[..0]);
    assert InLanguage(p.items, text[..0]);
    if !p.toEnd || text == [] {
      assert PrefixOf(p, 0, text);
    }
  }

  // A first item takes a piece of the text and leaves the rest of the
  // pattern the rest of the text.
  ghost predicate TakesPiece(item: Item, p: Pattern, k: nat, text: string) {
    k <= |text| && Piece(item, text[..k]) && AtFront(p, text[k..])
  }

  lemma PieceThenRest(item: Item, p: Pattern, k: nat, text: string)
    requires TakesPiece(item, p, k, text)
    ensures AtFront(Prepend(item, p), text)
  {
    var rest := text[k..];
    var n: nat :| PrefixOf(p, n, rest);
    var pieces :| Splits(p.items, pieces, rest[..n]);
    var all := [text[..k]] + pieces;
    assert all[1..] == pieces;
    assert text[..k + n] == text[..k] + rest[..n];
    forall i | 0 <= i < |all|
      ensures Piece(Prepend(item, p).items[i], all[i])
    {
      assert i > 0 ==> Prepend(item, p).items[i] == p.items[i - 1] && all[i] == pieces[i - 1];
    }
    assert Splits(Prepend(item, p).items, all, text[..k + n]);
    assert PrefixOf(Prepend(item, p), k + n, text);
  }

  lemma RestAfterPiece(item: Item, p: Pattern, text: string) returns (k: nat)
    requires AtFront(Prepend(item, p), text)
    ensures TakesPiece(item, p, k, text)
  {
    var whole := Prepend(item, p);
    var n: nat :| PrefixOf(whole, n, text);
    var pieces :| Splits(whole.items, pieces, text[..n]);
    k := |pieces[0]|;
    var rest := text[k..];
    var tail := Join(pieces[1..]);
    assert text[..n] == pieces[0] + tail;
    assert text[..k] == text[..n][..k] == pieces[0];
    assert rest[..n - k] == text[..n][k..] == tail;
    assert Piece(whole.items[0], pieces[0]);
    forall i | 0 <= i < |p.items| ensures Piece(p.items[i], pieces[1..][i]) {
      assert Piece(whole.items[i + 1], pieces[i + 1]);
    }
    assert Splits(p.items, pieces[1..], rest[..n - k]);
    assert PrefixOf(p, n - k, rest);
  }

  // A single character or '.' takes exactly the first character.
  lemma FrontOne(c: char, p: Pattern, text: string)
    ensures AtFront(Prepend(One(c), p), text) <==> text != [] && Fits(c, text[0]) && AtFront(p, text[1..])
  {
    if AtFront(Prepend(One(c), p), text) {
      var k := RestAfterPiece(One(c), p, text);
    }
    if text != [] && Fits(c, text[0]) && AtFront(p, text[1..]) {
      PieceThenRest(One(c), p, 1, text);
    }
  }

  // A starred item takes any run of fitting characters.
  lemma FrontStar(c: char, p: Pattern, text: string)
    ensures AtFront(Prepend(Star(c), p), text) <==> exists k: nat :: TakesPiece(Star(c), p, k, text)
  {
    if AtFront(Prepend(Star(c), p), text) {
      var k := RestAfterPiece(Star(c), p, text);
    }
    if k: nat :| TakesPiece(Star(c), p, k, text) {
      PieceThenRest(Star(c), p, k, text);
    }
  }

  // A run of fitting characters ends where a character does not fit.
  lemma BadCharacter(c: char, p: Pattern, i: nat, text: string)
    requires i < |text| && !Fits(c, text[i])
    ensures forall k: nat :: TakesPiece(Star(c), p, k, text) ==> k <= i
  {
    forall k: nat | i < k <= |text| ensures !Piece(Star(c), text[..k]) {
      assert text[..k][i] == text[i];
    }
  }

  method MatchHere(re: string, text: string) returns (found: bool)
    ensures found <==> AtFront(Parse(re), text)
    decreases |re|, 0
  {
    if re == [] {
      FrontNone(Parse(re), text);
      return true;
    }
    if 1 < |re| && re[1] == '*' {
      found := MatchStar(re[0], re[2..], text);
      return;
    }
    if re == "$" {
      FrontNone(Parse(re), text);
      return text == [];
    }
    FrontOne(re[0], Parse(re[1..]), text);
    if text != [] && (re[0] == '.' || re[0] == text[0]) {
      found := MatchHere(re[1..], text[1..]);
      return;
    }
    return false;
  }

  method MatchStar(c: char, re: string, text: string) returns (found: bool)
    ensures found <==> AtFront(Prepend(Star(c), Parse(re)), text)
    decreases |re|, 1
  {
    FrontStar(c, Parse(re), text);
    var t := 0;
    while true
      invariant t <= |text|
      invariant forall i :: 0 <= i < t ==> Fits(c, text[i])
      invariant forall k: nat :: k < t ==> !AtFront(Parse(re), text[k..])
      decreases |text| - t
    {
      found := MatchHere(re, text[t..]);
      if found {
        assert TakesPiece(Star(c), Parse(re), t, text);
        return;
      }
      if t == |text| {
        return;
      }
      t := t + 1;
      if !(text[t - 1] == c || c == '.') {
        BadCharacter(c, Parse(re), t - 1, text);
        return;
      }
    }
  }

  // match succeeds on a text exactly when a substring of it is in the
  // pattern's language: one that starts the text if the pattern starts with
  // '^', and one that ends the text if the pattern ends with '$'.
  ghost predicate Found(p: Pattern, from: nat, to: nat, text: string) {
    from <= to <= |text| && InLanguage(p.items, text[from..to]) && (p.toEnd ==> to == |text|)
  }

  predicate Anchored(re: string) {
    re != [] && re[0] == '^'
  }

  function Body(re: string): Pattern {
    if Anchored(re) then Parse(re[1..]) else Parse(re)
  }

  ghost predicate Matches(re: string, text: string) {
    exists from: nat, to: nat :: Found(Body(re), from, to, text) && (Anchored(re) ==> from == 0)
  }

  lemma FoundAt(p: Pattern, from: nat, text: string)
    requires from <= |text|
    ensures AtFront(p, text[from..]) <==> exists to: nat :: Found(p, from, to, text)
  {
    var rest := text[from..];
    if AtFront(p, rest) {
      var n: nat :| PrefixOf(p, n, rest);
      assert rest[..n] == text[from..from + n];
      assert Found(p, from, from + n, text);
    }
    if to: nat :| Found(p, from, to, text) {
      assert rest[..to - from] == text[from..to];
      assert PrefixOf(p, to - from, rest);
    }
  }

  method Match(re: string, text: string) returns (found: bool)
    ensures found <==> Matches(re, text)
  {
    if Anchored(re) {
      found := MatchHere(re[1..], text);
      FoundAt(Body(re), 0, text);
      assert text[0..] == text;
      return;
    }
    var t := 0;
    while true
      invariant t <= |text|
      invariant forall from: nat, to: nat :: from < t ==> !Found(Body(re), from, to, text)
      decreases |text| - t
    {
      found := MatchHere(re, text[t..]);
      FoundAt(Body(re), t, text);
      if found {
        return;
      }
      if t == |text| {
        return;
      }
      t := t + 1;
    }
  }

  // ---- what the special characters mean, pattern by pattern ----

  lemma MatchesAt(re: string, text: string)
    ensures (re != [] && re[0] == '^') ==> (Matches(re, text) <==> AtFront(Parse(re[1..]), text))
    ensures (re == [] || re[0] != '^') ==>
      (Matches(re, text) <==> exists i :: 0 <= i <= |text| && AtFront(Parse(re), text[i..]))
  {
    if Matches(re, text) {
      var from: nat, to: nat :| Found(Body(re), from, to, text) && (Anchored(re) ==> from == 0);
      assert from <= |text|;
      FoundAt(Body(re), from, text);
      assert text[0..] == text;
    }
    if re != [] && re[0] == '^' {
      if AtFront(Parse(re[1..]), text) {
        FoundAt(Parse(re[1..]), 0, text);
        assert text[0..] == text;
        var to: nat :| Found(Parse(re[1..]), 0, to, text);
        assert Found(Body(re), 0, to, text);
      }
    } else if i :| 0 <= i <= |text| && AtFront(Parse(re), text[i..]) {
      FoundAt(Parse(re), i, text);
      var to: nat :| Found(Parse(re), i, to, text);
      assert Found(Body(re), i, to, text);
    }
  }

  lemma {:induction false} PlainFront(re: string, text: string)
    requires forall i :: 0 <= i < |re| ==> re[i] !in ".*$"
    ensures AtFront(Parse(re), text) <==> re <= text
  {
    if re == [] {
      FrontNone(Parse(re), text);
    } else {
      FrontOne(re[0], Parse(re[1..]), text);
      if text != [] {
        PlainFront(re[1..], text[1..]);
        assert re == [re[0]] + re[1..] && text == [text[0]] + text[1..];
      }
    }
  }

  lemma {:induction false} PlainEnd(re: string, text: string)
    requires forall i :: 0 <= i < |re| ==> re[i] !in ".*$"
    ensures AtFront(Parse(re + "$"), text) <==> text == re
  {
    var all := re + "$";
    if re == [] {
      assert all == "$";
      FrontNone(Parse(all), text);
    } else {
      assert all[1..] == re[1..] + "$" && all[0] == re[0] && |all| > 1 && all[1] != '*';
      FrontOne(re[0], Parse(all[1..]), text);
      if text != [] {
        PlainEnd(re[1..], text[1..]);
        assert re == [re[0]] + re[1..] && text == [text[0]] + text[1..];
      }
    }
  }

  // Ordinary characters are looked for anywhere, behind "^" at the start, before "$" at the end, between the two as the
  // whole text.
  lemma OrdinaryMatch(re: string, text: string)
    requires forall i :: 0 <= i < |re| ==> re[i] !in ".*$"
    ensures re == [] || re[0] != '^' ==>
      (Matches(re, text) <==> exists i :: 0 <= i <= |text| - |re| && text[i..][..|re|] == re)
    ensures re == [] || re[0] != '^' ==>
      (Matches(re + "$", text) <==> |re| <= |text| && text[|text| - |re|..] == re)
    ensures Matches("^" + re, text) <==> |re| <= |text| && text[..|re|] == re
    ensures Matches("^" + re + "$", text) <==> text == re
  {
    if re == [] || re[0] != '^' {
      Anywhere(re, text);
      AtTheEnd(re, text);
    }
    hide Matches, AtFront;
    MatchesAt("^" + re, text);
    MatchesAt("^" + re + "$", text);
    assert ("^" + re)[1..] == re && ("^" + re + "$")[1..] == re + "$";
    PlainFront(re, text);
    PlainEnd(re, text);
  }

  lemma Anywhere(re: string, text: string)
    requires (forall i :: 0 <= i < |re| ==> re[i] !in ".*$") && (re == [] || re[0] != '^')
    ensures Matches(re, text) <==> exists i :: 0 <= i <= |text| - |re| && text[i..][..|re|] == re
  {
    hide Matches, AtFront;
    MatchesAt(re, text);
    if Matches(re, text) {
      var i :| 0 <= i <= |text| && AtFront(Parse(re), text[i..]);
      PlainFront(re, text[i..]);
      assert text[i..][..|re|] == re;
    }
    if i :| 0 <= i <= |text| - |re| && text[i..][..|re|] == re {
      PlainFront(re, text[i..]);
    }
  }

  lemma AtTheEnd(re: string, text: string)
    requires (forall i :: 0 <= i < |re| ==> re[i] !in ".*$") && (re == [] || re[0] != '^')
    ensures Matches(re + "$", text) <==> |re| <= |text| && text[|text| - |re|..] == re
  {
    hide Matches, AtFront;
    MatchesAt(re + "$", text);
    if Matches(re + "$", text) {
      var i :| 0 <= i <= |text| && AtFront(Parse(re + "$"), text[i..]);
      PlainEnd(re, text[i..]);
    }
    if |re| <= |text| {
      PlainEnd(re, text[|text| - |re|..]);
    }
  }

  // "*" repeats the character before it, and "." stands for any.
  lemma StarAndDot(c: char, text: string)
    ensures c != '.' ==> (Matches("^" + [c] + "*$", text) <==> forall i :: 0 <= i < |text| ==> text[i] == c)
    ensures Matches("^.$", text) <==> |text| == 1
    ensures Matches("^.*$", text)
  {
    StarAlone(c, text);
    StarAlone('.', text);
    assert "^" + ['.'] + "*$" == "^.*$";
    MatchesAt("^.$", text);
    assert "^.$"[1..] == ".$" && ".$"[1..] == "$";
    FrontOne('.', Parse("$"), text);
    if text != [] {
      FrontNone(Parse("$"), text[1..]);
    }
  }

  lemma StarAlone(c: char, text: string)
    ensures Matches("^" + [c] + "*$", text) <==> Piece(Star(c), text)
  {
    var re := "^" + [c] + "*$";
    MatchesAt(re, text);
    assert re[1..] == [c] + "*$" && re[1..][2..] == "$";
    FrontStar(c, Parse("$"), text);
    if Piece(Star(c), text) {
      FrontNone(Parse("$"), []);
      assert text[..|text|] == text && text[|text|..] == [];
      assert TakesPiece(Star(c), Parse("$"), |text|, text);
    }
    if k: nat :| TakesPiece(Star(c), Parse("$"), k, text) {
      FrontNone(Parse("$"), text[k..]);
      assert text[..k] == text;
    }
  }
}
