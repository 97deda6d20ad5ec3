/** Site ids: how one is derived from a name, which ones are valid, and which may name a file. */
module Slug {
  /** What the model assumes of Unicode lowercasing and white space, character by character. */
  ghost predicate Unicode(lower: char -> char, space: char -> bool) {
    && (forall c | SlugChar(c) || c == '-' :: lower(c) == c && !space(c))
    && (forall c | space(c) :: !SlugChar(lower(c)))
  }

  predicate SlugChar(c: char) { 'a' <= c <= 'z' || '0' <= c <= '9' }

  // --- the code ---

  function TrimLeft(s: string, cut: char -> bool): (r: string) {
    if s != [] && cut(s[0]) then TrimLeft(s[1..], cut) else s
  }

  function TrimRight(s: string, cut: char -> bool): (r: string) {
    if s != [] && cut(s[|s| - 1]) then TrimRight(s[..|s| - 1], cut) else s
  }

  function Trim(s: string, cut: char -> bool): (r: string) { TrimRight(TrimLeft(s, cut), cut) }

  function Lower(s: string, lower: char -> char): (r: string)
    ensures |r| == |s| && forall i | 0 <= i < |s| :: r[i] == lower(s[i])
  {
    seq(|s|, i requires 0 <= i < |s| => lower(s[i]))
  }

  /** How many leading characters are slug characters, or are not. */
  function RunLength(s: string, slug: bool): (n: nat)
    ensures n <= |s| && (forall i | 0 <= i < n :: SlugChar(s[i]) == slug)
    ensures n < |s| ==> SlugChar(s[n]) != slug
  {
    if s == [] || SlugChar(s[0]) != slug then 0 else 1 + RunLength(s[1..], slug)
  }

  /** Each longest run of other characters becomes one hyphen. */
  function Collapse(s: string): (r: string)
    decreases |s|
  {
    if s == [] then []
    else if SlugChar(s[0]) then
      var n := RunLength(s, true);
      s[..n] + Collapse(s[n..])
    else
      "-" + Collapse(s[RunLength(s, false)..])
  }

  function Slugify(s: string, lower: char -> char, space: char -> bool): (r: string) {
    Trim(Collapse(Lower(Trim(s, space), lower)), IsHyphen)
  }

  predicate IsHyphen(c: char) { c == '-' }

  // --- the language of slugs ---

  predicate Word(w: string) { w != [] && forall i | 0 <= i < |w| :: SlugChar(w[i]) }

  predicate AllWords(ws: seq<string>) { forall i | 0 <= i < |ws| :: Word(ws[i]) }

  /** `^[a-z0-9]+(?:-[a-z0-9]+)*$`: words joined by single hyphens. */
  function Join(ws: seq<string>): (s: string)
  {
    if ws == [] then [] else if |ws| == 1 then ws[0] else ws[0] + "-" + Join(ws[1..])
  }

  ghost predicate Matches(s: string) { exists ws: seq<string> :: ws != [] && AllWords(ws) && s == Join(ws) }

  /** The longest runs of slug characters in a text, in order. */
  function Words(s: string): (ws: seq<string>)
    ensures AllWords(ws)
    decreases |s|
  {
    if s == [] then []
    else if SlugChar(s[0]) then
      var n := RunLength(s, true);
      [s[..n]] + Words(s[n..])
    else Words(s[1..])
  }

  // --- Slugify joins the words of the lowercased text ---

  lemma {:induction false} WordsIffSlugChar(s: string)
    ensures Words(s) == [] <==> forall i | 0 <= i < |s| :: !SlugChar(s[i])
  {
    if s != [] && !SlugChar(s[0]) {
      WordsIffSlugChar(s[1..]);
      assert forall i | 1 <= i < |s| :: s[i] == s[1..][i - 1];
    }
  }

  lemma {:induction false} WordsSkipFront(s: string, n: nat)
    requires n <= |s| && forall i | 0 <= i < n :: !SlugChar(s[i])
    ensures Words(s[n..]) == Words(s)
  {
    if n > 0 {
      WordsSkipFront(s[1..], n - 1);
      assert s[1..][n - 1..] == s[n..];
    }
  }

  lemma {:induction false} WordsSkipBack(s: string)
    requires s != [] && !SlugChar(s[|s| - 1])
    ensures Words(s[..|s| - 1]) == Words(s)
    decreases |s|
  {
    var front := s[..|s| - 1];
    if front != [] {
      if SlugChar(s[0]) {
        var n := RunLength(s, true);
        RunOfPrefix(s);
        assert front[..n] == s[..n] && front[n..] == s[n..][..|s| - n - 1];
        WordsSkipBack(s[n..]);
      } else {
        assert front[1..] == s[1..][..|s| - 2];
        WordsSkipBack(s[1..]);
      }
    }
  }

  lemma {:induction false} RunOfPrefix(s: string)
    requires s != [] && !SlugChar(s[|s| - 1])
    ensures RunLength(s[..|s| - 1], true) == RunLength(s, true) < |s|
  {
    if SlugChar(s[0]) {
      assert s[..|s| - 1][1..] == s[1..][..|s| - 2];
      RunOfPrefix(s[1..]);
    }
  }

  function Hyphen(b: bool): string { if b then "-" else [] }

  /** The words joined, with a hyphen for what stands before the first and one for what stands after the last. */
  function Joined(s: string): string {
    Hyphen(s != [] && !SlugChar(s[0])) + Join(Words(s)) + Hyphen(Words(s) != [] && !SlugChar(s[|s| - 1]))
  }

  lemma {:induction false} JoinCons(w: string, ws: seq<string>)
    ensures Join([w] + ws) == w + (if ws == [] then [] else "-" + Join(ws))
  {
    assert ([w] + ws)[1..] == ws;
  }

  /** What follows the first word starts and, if anything is left, ends as the text does. */
  lemma {:induction false} AfterFirstWord(s: string)
    requires s != [] && SlugChar(s[0])
    ensures var n := RunLength(s, true);
      && 0 < n && Words(s) == [s[..n]] + Words(s[n..])
      && (n < |s| ==> !SlugChar(s[n..][0]) && s[n..][|s| - n - 1] == s[|s| - 1])
      && (n == |s| || Words(s[n..]) == [] ==> Words(s[n..]) == [] && (SlugChar(s[|s| - 1]) <==> n == |s|))
  {
    WordsIffSlugChar(s[RunLength(s, true)..]);
  }

  lemma {:induction false} JoinedWord(s: string)
    requires s != [] && SlugChar(s[0])
    ensures var n := RunLength(s, true); 0 < n && Joined(s) == s[..n] + Joined(s[n..])
  {
    AfterFirstWord(s);
    var n := RunLength(s, true);
    WordThenRest(s[..n], n < |s|, Words(s[n..]), !SlugChar(s[|s| - 1]));
  }

  /** A word before the rest of a text: `more` says there is a rest, `gap` that it does not end in a word. */
  lemma {:induction false} WordThenRest(w: string, more: bool, ws: seq<string>, gap: bool)
    requires ws == [] ==> gap == more
    requires ws != [] ==> more
    ensures Hyphen(false) + Join([w] + ws) + Hyphen(gap) == w + (Hyphen(more) + Join(ws) + Hyphen(ws != [] && gap))
  {
    JoinCons(w, ws);
    var j, tail := Join(ws), Hyphen(gap);
    if ws != [] {
      assert w + ("-" + j) + tail == w + ("-" + j + tail);
    }
  }

  lemma {:induction false} AfterGap(s: string)
    requires s != [] && !SlugChar(s[0])
    ensures var n := RunLength(s, false);
      && 0 < n && Words(s) == Words(s[n..])
      && (n < |s| ==> SlugChar(s[n..][0]) && s[n..][|s| - n - 1] == s[|s| - 1])
  {
    WordsSkipFront(s, RunLength(s, false));
  }

  lemma {:induction false} JoinedGap(s: string)
    requires s != [] && !SlugChar(s[0])
    ensures var n := RunLength(s, false); 0 < n && Joined(s) == "-" + Joined(s[n..])
  {
    AfterGap(s);
    var rest := s[RunLength(s, false)..];
    if rest == [] {
      assert Words(s) == [];
    } else {
      var words, tail := Join(Words(s)), Hyphen(Words(s) != [] && !SlugChar(s[|s| - 1]));
      assert Joined(rest) == words + tail && Joined(s) == "-" + words + tail;
      assert "-" + words + tail == "-" + (words + tail);
    }
  }

  lemma {:induction false} CollapseJoins(s: string)
    ensures Collapse(s) == Joined(s)
    decreases |s|
  {
    if s != [] {
      if SlugChar(s[0]) { JoinedWord(s); } else { JoinedGap(s); }
      CollapseJoins(s[RunLength(s, SlugChar(s[0]))..]);
    }
  }

  lemma {:induction false} JoinEnds(ws: seq<string>)
    requires AllWords(ws) && ws != []
    ensures var s := Join(ws); s != [] && SlugChar(s[0]) && SlugChar(s[|s| - 1])
  {
    assert Word(ws[0]);
    if |ws| > 1 { JoinEnds(ws[1..]); }
  }

  lemma {:induction false} TrimHyphens(before: bool, s: string, after: bool)
    requires s == [] ==> !after
    requires s != [] ==> s[0] != '-' && s[|s| - 1] != '-'
    ensures Trim(Hyphen(before) + s + Hyphen(after), IsHyphen) == s
  {
    var t := s + Hyphen(after);
    assert Hyphen(before) + s + Hyphen(after) == Hyphen(before) + t;
    if before { assert (Hyphen(before) + t)[1..] == t; } else { assert Hyphen(before) + t == t; }
    assert TrimLeft(Hyphen(before) + t, IsHyphen) == t;
    if after { assert t[|t| - 1] == '-' && t[..|t| - 1] == s; } else { assert t == s; }
    assert TrimRight(s, IsHyphen) == s;
  }

  lemma {:induction false} TrimLeftWords(s: string, lower: char -> char, space: char -> bool)
    requires Unicode(lower, space)
    ensures Words(Lower(TrimLeft(s, space), lower)) == Words(Lower(s, lower))
  {
    if s != [] && space(s[0]) {
      TrimLeftWords(s[1..], lower, space);
      assert Lower(s, lower)[1..] == Lower(s[1..], lower);
    }
  }

  lemma {:induction false} TrimRightWords(s: string, lower: char -> char, space: char -> bool)
    requires Unicode(lower, space)
    ensures Words(Lower(TrimRight(s, space), lower)) == Words(Lower(s, lower))
  {
    if s != [] && space(s[|s| - 1]) {
      TrimRightWords(s[..|s| - 1], lower, space);
      assert Lower(s, lower)[..|s| - 1] == Lower(s[..|s| - 1], lower);
      WordsSkipBack(Lower(s, lower));
    }
  }

  /** A slug is the words of the lowercased text, joined by hyphens: white space, signs and other scripts only separate. */
  lemma {:induction false} SlugifyJoinsWords(s: string, lower: char -> char, space: char -> bool)
    requires Unicode(lower, space)
    ensures Slugify(s, lower, space) == Join(Words(Lower(s, lower)))
  {
    TrimLeftWords(s, lower, space);
    TrimRightWords(TrimLeft(s, space), lower, space);
    var t := Lower(Trim(s, space), lower);
    CollapseJoins(t);
    if Words(t) != [] { JoinEnds(Words(t)); }
    TrimHyphens(t != [] && !SlugChar(t[0]), Join(Words(t)), Words(t) != [] && !SlugChar(t[|t| - 1]));
  }

  /** The result is empty or valid, and empty only when no slug character is left after lowercasing. */
  lemma {:induction false} SlugifyEmptyOrValid(s: string, lower: char -> char, space: char -> bool)
    requires Unicode(lower, space)
    ensures Slugify(s, lower, space) == [] || Matches(Slugify(s, lower, space))
    ensures Slugify(s, lower, space) == [] <==> forall c | c in s :: !SlugChar(lower(c))
    ensures Slugify(s, lower, space) == [] <==> forall c | c in s :: !('a' <= lower(c) <= 'z' || '0' <= lower(c) <= '9')
  {
    var t := Lower(s, lower);
    SlugifyJoinsWords(s, lower, space);
    WordsIffSlugChar(t);
    if Words(t) == [] {
      forall c | c in s ensures !SlugChar(lower(c)) { var i :| 0 <= i < |s| && s[i] == c; assert t[i] == lower(c); }
    } else {
      JoinEnds(Words(t));
      var i :| 0 <= i < |t| && SlugChar(t[i]);
      assert s[i] in s && t[i] == lower(s[i]);
    }
  }

  lemma {:induction false} WordRun(w: string, rest: string)
    requires Word(w) && (rest != [] ==> !SlugChar(rest[0]))
    ensures RunLength(w + rest, true) == |w|
  {
    var s := w + rest;
    var n := RunLength(s, true);
    assert rest != [] ==> s[|w|] == rest[0];
    assert forall i | 0 <= i < |w| :: s[i] == w[i];
  }

  /** Words survive joining. */
  lemma {:induction false} WordsOfJoin(ws: seq<string>)
    requires AllWords(ws)
    ensures Words(Join(ws)) == ws
    decreases |ws|
  {
    if ws != [] {
      var w, rest := ws[0], if |ws| == 1 then [] else "-" + Join(ws[1..]);
      assert Word(w) && Join(ws) == w + rest;
      WordRun(w, rest);
      assert (w + rest)[..|w|] == w && (w + rest)[|w|..] == rest;
      WordsOfJoin(ws[1..]);
      if |ws| > 1 { assert rest[1..] == Join(ws[1..]); }
      assert ws == [w] + ws[1..];
    }
  }

  /** The characters of a slug are slug characters and hyphens. */
  lemma {:induction false} JoinChars(ws: seq<string>)
    requires AllWords(ws)
    ensures forall c | c in Join(ws) :: SlugChar(c) || c == '-'
    decreases |ws|
  {
    if ws != [] {
      assert Word(ws[0]);
      JoinChars(ws[1..]);
    }
  }

  /** The same language, letter by letter: a to z, 0 to 9 and hyphens, no hyphen first or last, and no two together. */
  predicate SlugText(s: string) {
    && s != [] && s[0] != '-' && s[|s| - 1] != '-'
    && (forall i | 0 <= i < |s| :: 'a' <= s[i] <= 'z' || '0' <= s[i] <= '9' || s[i] == '-')
    && (forall i | 0 <= i < |s| - 1 :: s[i] == '-' ==> s[i + 1] != '-')
  }

  lemma {:induction false} JoinIsText(ws: seq<string>)
    requires AllWords(ws) && ws != []
    ensures SlugText(Join(ws))
    decreases |ws|
  {
    assert Word(ws[0]);
    if |ws| > 1 {
      JoinIsText(ws[1..]);
      var s, rest := ws[0] + "-" + Join(ws[1..]), Join(ws[1..]);
      assert s == Join(ws);
      forall i | 0 <= i < |s| - 1 && s[i] == '-' ensures s[i + 1] != '-' {
        if i > |ws[0]| { assert s[i] == rest[i - |ws[0]| - 1] && s[i + 1] == rest[i - |ws[0]|]; }
      }
      assert s[|s| - 1] == rest[|rest| - 1];
    }
  }

  lemma {:induction false} RestIsText(s: string, n: nat)
    requires SlugText(s) && n < |s| && s[n] == '-'
    ensures SlugText(s[n + 1..])
  {
    var rest := s[n + 1..];
    assert n < |s| - 1;
    assert rest[0] == s[n + 1] && rest[|rest| - 1] == s[|s| - 1];
    forall i | 0 <= i < |rest| - 1 && rest[i] == '-' ensures rest[i + 1] != '-' {
      assert s[n + 1 + i] == '-';
    }
  }

  lemma {:induction false} TextIsJoin(s: string) returns (ws: seq<string>)
    requires SlugText(s)
    ensures ws != [] && AllWords(ws) && s == Join(ws)
    decreases |s|
  {
    var n := RunLength(s, true);
    assert SlugChar(s[0]) && n > 0;
    if n == |s| {
      assert s[..n] == s;
      ws := [s];
    } else {
      assert s[n] == '-';
      var rest := s[n + 1..];
      RestIsText(s, n);
      var more := TextIsJoin(rest);
      ws := [s[..n]] + more;
      assert ws[1..] == more && s == s[..n] + "-" + rest;
    }
  }

  /** The pattern's language is that of such texts. */
  lemma {:induction false} MatchesIff(s: string)
    ensures Matches(s) <==> SlugText(s)
  {
    if Matches(s) {
      var ws: seq<string> :| ws != [] && AllWords(ws) && s == Join(ws);
      JoinIsText(ws);
    }
    if SlugText(s) { var ws := TextIsJoin(s); }
  }

  /** A valid id is its own slug, and only valid ids and the empty one are. */
  lemma {:induction false} SlugifyFixesSlugs(s: string, lower: char -> char, space: char -> bool)
    requires Unicode(lower, space)
    ensures Slugify(s, lower, space) == s <==> s == [] || Matches(s)
  {
    if Matches(s) {
      var ws: seq<string> :| ws != [] && AllWords(ws) && s == Join(ws);
      JoinChars(ws);
      assert forall i | 0 <= i < |s| :: s[i] in s;
      assert Lower(s, lower) == s;
      SlugifyJoinsWords(s, lower, space);
      WordsOfJoin(ws);
    }
    SlugifyEmptyOrValid(s, lower, space);
  }

  lemma {:induction false} SlugifyIdempotent(s: string, lower: char -> char, space: char -> bool)
    requires Unicode(lower, space)
    ensures var r := Slugify(s, lower, space); Slugify(r, lower, space) == r
  {
    SlugifyEmptyOrValid(s, lower, space);
    SlugifyFixesSlugs(Slugify(s, lower, space), lower, space);
  }

  // --- ids as file names ---

  /** The part after the last slash. */
  function AfterSlash(s: string): (r: string)
    ensures |r| <= |s| && (r == s <==> '/' !in s)
  {
    assert s != [] ==> s == [s[0]] + s[1..];
    if s == [] then []
    else if '/' in s[1..] then AfterSlash(s[1..])
    else if s[0] == '/' then s[1..]
    else s
  }

  /** `filepath.Base`. */
  function Base(s: string): (r: string) {
    if s == [] then "." else
      var t := TrimRight(s, (c: char) => c == '/');
      if t == [] then "/" else AfterSlash(t)
  }

  predicate SafeId(id: string) {
    id != "" && id != "." && id != ".." && id == Base(id) && '/' !in id && '\\' !in id
  }

  lemma {:induction false} SafeIdIff(id: string)
    ensures SafeId(id) <==> id != [] && id != "." && id != ".." && '/' !in id && '\\' !in id
  {
    if id != [] && '/' !in id {
      assert id[|id| - 1] in id;
      assert TrimRight(id, (c: char) => c == '/') == id;
    }
  }

  /** Every valid id may name a file. */
  lemma {:induction false} SlugsAreSafe(id: string)
    requires Matches(id)
    ensures SafeId(id)
  {
    var ws: seq<string> :| ws != [] && AllWords(ws) && id == Join(ws);
    JoinEnds(ws);
    JoinChars(ws);
    assert id[0] != '.';
    SafeIdIff(id);
  }

  // --- the id of a configuration ---

  class SiteConfig {
    var id: string
    var name: string
    var url: string

    constructor (id: string, name: string, url: string)
      ensures this.id == id && this.name == name && this.url == url
    {
      this.id := id;
      this.name := name;
      this.url := url;
    }

    /** A supplied id is kept; otherwise the name's slug, and the URL's when the name has none. */
    method ApplyDefaults(lower: char -> char, space: char -> bool)
      requires Unicode(lower, space)
      modifies `id
      ensures old(id) != [] ==> id == old(id)
      ensures old(id) == [] ==>
        && (id == [] || Matches(id))
        && id == Join(Words(Lower(if exists c | c in name :: SlugChar(lower(c)) then name else url, lower)))
        && (id == [] <==> forall c | c in name + url :: !SlugChar(lower(c)))
    {
      if id == [] {
        SlugifyJoinsWords(name, lower, space);
        SlugifyEmptyOrValid(name, lower, space);
        SlugifyJoinsWords(url, lower, space);
        SlugifyEmptyOrValid(url, lower, space);
        id := Slugify(name, lower, space);
        if id == [] {
          id := Slugify(url, lower, space);
        }
      }
    }
  }

  /** With a URL that begins with http, in any case, an id can always be derived: no name is too odd. */
  lemma {:induction false} DerivedIdIsValid(name: string, url: string, lower: char -> char, space: char -> bool)
    requires Unicode(lower, space) && |url| >= 4 && Lower(url[..4], lower) == "http"
    ensures var fromName := Slugify(name, lower, space);
      var id := if fromName == [] then Slugify(url, lower, space) else fromName;
      Matches(id) && SafeId(id)
  {
    SlugifyEmptyOrValid(name, lower, space);
    SlugifyEmptyOrValid(url, lower, space);
    assert url[0] in url && Lower(url[..4], lower)[0] == lower(url[0]);
    var fromName := Slugify(name, lower, space);
    SlugsAreSafe(if fromName == [] then Slugify(url, lower, space) else fromName);
  }
}
