/** Normalisation of column names. */
module NameNormalizer {

  predicate IsAlnum(ch: char) {
    '0' <= ch <= '9' || 'a' <= ch <= 'z'
  }

  function StripChar(ch: char): (r: char)
    ensures IsAlnum(r) || r == '_'
  {
    if '0' <= ch <= '9' then ch
    else if 'a' <= ch <= 'z' then ch
    else if 'A' <= ch <= 'Z' then ch - 'A' + 'a'
    else '_'
  }

  function StripChars(s: string): (r: string)
    ensures |r| == |s| && Plain(r)
    ensures forall i :: 0 <= i < |s| ==> r[i] == StripChar(s[i])
  {
    seq(|s|, i requires 0 <= i < |s| => StripChar(s[i]))
  }

  /** Only lower-case letters, digits and underscores. */
  predicate Plain(s: string) {
    forall i :: 0 <= i < |s| ==> IsAlnum(s[i]) || s[i] == '_'
  }

  predicate Blank(s: string) {
    forall i :: 0 <= i < |s| ==> s[i] == '_'
  }

  /** `name.substr(0, find_last_not_of("_") + 1)` where there is such a character. */
  function DropTrailing(s: string): string {
    if s == "" || s[|s| - 1] != '_' then s else DropTrailing(s[..|s| - 1])
  }

  function TrimTrailing(s: string): string {
    if Blank(s) then s else DropTrailing(s)
  }

  function DropLeading(s: string): string {
    if s == "" || s[0] != '_' then s else DropLeading(s[1..])
  }

  function TrimLeading(s: string): string {
    if Blank(s) then s else DropLeading(s)
  }

  /** `std::unique` with `both_underscores`. */
  function Unique(s: string): string {
    if |s| < 2 then s
    else if s[0] == '_' && s[1] == '_' then Unique(s[1..])
    else [s[0]] + Unique(s[1..])
  }

  /** `NameNormalizer::normalize`, each statement in turn. */
  function Normalize(name: string): string {
    Unique(TrimLeading(TrimTrailing(StripChars(name))))
  }

  // ------------------------------------------------ the words of a name

  /** The length of the leading run of non-underscores. */
  function WordLength(s: string): (k: nat)
    ensures k <= |s| && forall i :: 0 <= i < k ==> s[i] != '_'
    ensures k < |s| ==> s[k] == '_'
  {
    if s == "" || s[0] == '_' then 0 else 1 + WordLength(s[1..])
  }

  /** The maximal runs of non-underscores, in order. */
  function Words(s: string): seq<string>
    decreases |s|
  {
    if s == "" then []
    else if s[0] == '_' then Words(s[1..])
    else [s[..WordLength(s)]] + Words(s[WordLength(s)..])
  }

  function Join(ws: seq<string>): string {
    if ws == [] then "" else if |ws| == 1 then ws[0] else ws[0] + "_" + Join(ws[1..])
  }

  /** The normal form of a name: its words joined by single underscores. */
  function NormalForm(name: string): string {
    var ws := Words(StripChars(name));
    if name == "" then "" else if ws == [] then "_" else Join(ws)
  }

  lemma {:induction false} UniqueWord(w: string, u: string)
    requires forall i :: 0 <= i < |w| ==> w[i] != '_'
    ensures Unique(w + u) == w + Unique(u)
  {
    if w == "" {
      assert w + u == u;
    } else if |w + u| < 2 {
      assert u == "" && w + u == w;
    } else {
      UniqueWord(w[1..], u);
      assert (w + u)[1..] == w[1..] + u && (w + u)[0] == w[0];
      assert w == [w[0]] + w[1..];
    }
  }

  lemma {:induction false} UniqueGap(u: string)
    requires u != "" && u[0] == '_' && !Blank(u)
    ensures DropLeading(u) != ""
    ensures Unique(u) == "_" + Unique(DropLeading(u))
    decreases |u|
  {
    assert |u| >= 2;
    if u[1] == '_' {
      assert !Blank(u[1..]) by {
        var i :| 0 <= i < |u| && u[i] != '_';
        assert u[1..][i - 1] != '_';
      }
      UniqueGap(u[1..]);
    }
  }

  lemma {:induction false} WordsSkipGap(u: string)
    ensures Words(DropLeading(u)) == Words(u)
  {
    if u != "" && u[0] == '_' {
      WordsSkipGap(u[1..]);
    }
  }

  lemma {:induction false} DropLeadingKeeps(u: string)
    ensures |DropLeading(u)| <= |u|
    ensures DropLeading(u) == u[|u| - |DropLeading(u)|..]
    ensures DropLeading(u) != "" ==> DropLeading(u)[0] != '_'
    ensures DropLeading(u) == "" <==> Blank(u)
  {
    if u != "" && u[0] == '_' {
      DropLeadingKeeps(u[1..]);
      if Blank(u[1..]) {
        forall i | 0 <= i < |u|
          ensures u[i] == '_'
        {
          assert i > 0 ==> u[i] == u[1..][i - 1];
        }
      }
    }
  }

  lemma {:induction false} DropTrailingKeeps(u: string)
    ensures |DropTrailing(u)| <= |u|
    ensures DropTrailing(u) == u[..|DropTrailing(u)|]
    ensures forall i :: |DropTrailing(u)| <= i < |u| ==> u[i] == '_'
    ensures DropTrailing(u) != "" ==> DropTrailing(u)[|DropTrailing(u)| - 1] != '_'
  {
    if u != "" && u[|u| - 1] == '_' {
      DropTrailingKeeps(u[..|u| - 1]);
    }
  }

  /** Trailing underscores hold no word. */
  lemma {:induction false} WordsOfPadded(s: string, pad: string)
    requires Blank(pad)
    ensures Words(s + pad) == Words(s)
    decreases |s| + |pad|
  {
    var t := s + pad;
    if s == "" {
      assert t == pad;
      if pad != "" {
        WordsOfPadded("", pad[1..]);
        assert "" + pad[1..] == pad[1..];
      }
    } else if s[0] == '_' {
      assert t[1..] == s[1..] + pad;
      WordsOfPadded(s[1..], pad);
    } else {
      var k := WordLength(s);
      WordLengthIs(t, k);
      assert t[..k] == s[..k] && t[k..] == s[k..] + pad;
      WordsOfPadded(s[k..], pad);
    }
  }

  lemma {:induction false} WordLengthIs(s: string, k: nat)
    requires k <= |s| && (forall i :: 0 <= i < k ==> s[i] != '_') && (k < |s| ==> s[k] == '_')
    ensures WordLength(s) == k
  {
    if k > 0 {
      WordLengthIs(s[1..], k - 1);
    }
  }

  /** A string without outer underscores collapses to its words joined. */
  lemma {:induction false} UniqueJoinsWords(s: string)
    requires s != "" && s[0] != '_' && s[|s| - 1] != '_'
    ensures Words(s) != [] && Unique(s) == Join(Words(s))
    decreases |s|
  {
    var k := WordLength(s);
    var w, u := s[..k], s[k..];
    assert s == w + u;
    UniqueWord(w, u);
    if u == "" {
      assert Words(s) == [w];
    } else {
      assert u[|u| - 1] == s[|s| - 1] != '_';
      assert !Blank(u);
      UniqueGap(u);
      DropLeadingKeeps(u);
      WordsSkipGap(u);
      var rest := DropLeading(u);
      UniqueJoinsWords(rest);
      assert Words(s) == [w] + Words(rest);
      assert Words(s)[1..] == Words(rest);
    }
  }

  lemma {:induction false} UniqueBlank(s: string)
    requires Blank(s) && s != ""
    ensures Unique(s) == "_" && Words(s) == []
  {
    if |s| > 1 {
      UniqueBlank(s[1..]);
    } else {
      assert s == "_";
      assert Words(s[1..]) == [];
    }
  }

  lemma TrimTrailingKeepsWords(s: string)
    requires !Blank(s)
    ensures var t := TrimTrailing(s);
            t != "" && !Blank(t) && t[|t| - 1] != '_' && Words(t) == Words(s)
  {
    var t := DropTrailing(s);
    DropTrailingKeeps(s);
    var i :| 0 <= i < |s| && s[i] != '_';
    assert t[i] != '_';
    assert s == t + s[|t|..];
    WordsOfPadded(t, s[|t|..]);
  }

  lemma TrimmedCollapses(t: string)
    requires t != "" && !Blank(t) && t[|t| - 1] != '_'
    ensures Words(t) != [] && Unique(TrimLeading(t)) == Join(Words(t))
  {
    DropLeadingKeeps(t);
    WordsSkipGap(t);
    UniqueJoinsWords(DropLeading(t));
  }

  /** Normalising a name computes its normal form. */
  lemma NormalizeIsNormalForm(name: string)
    ensures Normalize(name) == NormalForm(name)
  {
    var s := StripChars(name);
    if name == "" {
    } else if Blank(s) {
      UniqueBlank(s);
    } else {
      TrimTrailingKeepsWords(s);
      TrimmedCollapses(TrimTrailing(s));
    }
  }

  // ------------------------------------------------ shape and idempotence

  /** Lower-case letters, digits and single inner underscores, or just "_". */
  predicate IsNormal(s: string) {
    && Plain(s)
    && (forall i :: 0 <= i < |s| - 1 ==> !(s[i] == '_' && s[i + 1] == '_'))
    && (s != "" && s != "_" ==> s[0] != '_' && s[|s| - 1] != '_')
  }

  predicate IsWord(w: string) {
    w != "" && forall i :: 0 <= i < |w| ==> IsAlnum(w[i])
  }

  lemma {:induction false} WordsAreWords(s: string)
    requires Plain(s)
    ensures forall i :: 0 <= i < |Words(s)| ==> IsWord(Words(s)[i])
    decreases |s|
  {
    if s != "" {
      var k := if s[0] == '_' then 1 else WordLength(s);
      WordsAreWords(s[k..]);
    }
  }

  lemma {:induction false} JoinIsNormal(ws: seq<string>)
    requires ws != [] && forall i :: 0 <= i < |ws| ==> IsWord(ws[i])
    ensures IsNormal(Join(ws)) && Join(ws) != "" && Join(ws)[0] != '_'
    ensures Join(ws)[|Join(ws)| - 1] != '_'
  {
    var w := ws[0];
    assert IsWord(w);
    if |ws| > 1 {
      JoinIsNormal(ws[1..]);
      var t := Join(ws[1..]);
      var s := w + "_" + t;
      assert forall i :: 0 <= i < |s| ==>
        s[i] == if i < |w| then w[i] else if i == |w| then '_' else t[i - |w| - 1];
    }
  }

  /** A normalised name is in normal shape; only the empty name becomes empty. */
  lemma NormalizeIsNormal(name: string)
    ensures IsNormal(Normalize(name))
    ensures Normalize(name) == "" <==> name == ""
  {
    NormalizeIsNormalForm(name);
    var ws := Words(StripChars(name));
    WordsAreWords(StripChars(name));
    if name != "" && ws != [] {
      JoinIsNormal(ws);
    }
  }

  lemma {:induction false} UniqueFixes(s: string)
    requires forall i :: 0 <= i < |s| - 1 ==> !(s[i] == '_' && s[i + 1] == '_')
    ensures Unique(s) == s
  {
    if |s| >= 2 {
      forall i | 0 <= i < |s[1..]| - 1
        ensures !(s[1..][i] == '_' && s[1..][i + 1] == '_')
      {
        assert s[1..][i] == s[i + 1] && s[1..][i + 1] == s[i + 2];
      }
      UniqueFixes(s[1..]);
    }
  }

  /** A name in normal shape passes every stage unchanged. */
  lemma NormalIsFixed(s: string)
    requires IsNormal(s)
    ensures Normalize(s) == s
  {
    assert StripChars(s) == s;
    if s != "" && s != "_" {
      assert TrimTrailing(s) == s;
      assert TrimLeading(s) == s;
    }
    UniqueFixes(s);
  }

  /** Normalising changes nothing exactly on names already in normal shape. */
  lemma NormalizeFixes(s: string)
    ensures IsNormal(s) <==> Normalize(s) == s
  {
    NormalizeIsNormal(s);
    if IsNormal(s) {
      NormalIsFixed(s);
    }
  }

  /** A name of letters and digits keeps its length and its digits, and its letters
      become lower case. */
  lemma LettersAreLowered(name: string)
    requires forall i :: 0 <= i < |name| ==>
               '0' <= name[i] <= '9' || 'a' <= name[i] <= 'z' || 'A' <= name[i] <= 'Z'
    ensures |Normalize(name)| == |name|
    ensures forall i :: 0 <= i < |name| ==>
              Normalize(name)[i] as int == name[i] as int + if 'A' <= name[i] <= 'Z' then 32 else 0
  {
    StripLetters(name);
    NormalIsFixed(StripChars(name));
    assert StripChars(StripChars(name)) == StripChars(name);
  }

  lemma StripLetters(name: string)
    requires forall i :: 0 <= i < |name| ==>
               '0' <= name[i] <= '9' || 'a' <= name[i] <= 'z' || 'A' <= name[i] <= 'Z'
    ensures IsNormal(StripChars(name))
    ensures forall i :: 0 <= i < |name| ==>
              StripChars(name)[i] as int == name[i] as int + if 'A' <= name[i] <= 'Z' then 32 else 0
  {
    var s := StripChars(name);
    forall i | 0 <= i < |name|
      ensures s[i] != '_' && IsAlnum(s[i])
      ensures s[i] as int == name[i] as int + if 'A' <= name[i] <= 'Z' then 32 else 0
    {
      LetterStripped(name[i]);
    }
  }

  lemma LetterStripped(ch: char)
    requires '0' <= ch <= '9' || 'a' <= ch <= 'z' || 'A' <= ch <= 'Z'
    ensures IsAlnum(StripChar(ch)) && StripChar(ch) != '_'
    ensures StripChar(ch) as int == ch as int + if 'A' <= ch <= 'Z' then 32 else 0
  {
  }

  /** Any other character separates words. */
  lemma OthersSeparate(a: string, c: char, b: string)
    requires IsWord(a) && IsWord(b)
    requires !('0' <= c <= '9' || 'a' <= c <= 'z' || 'A' <= c <= 'Z')
    ensures Normalize(a + [c] + b) == a + "_" + b
  {
    var s := a + "_" + b;
    assert StripChars(a + [c] + b) == s;
    JoinIsNormal([a, b]);
    assert Join([a, b]) == s by {
      assert [a, b][1..] == [b];
    }
    NormalIsFixed(s);
    assert StripChars(s) == s;
  }

  lemma NormalizeIdempotent(name: string)
    ensures Normalize(Normalize(name)) == Normalize(name)
  {
    NormalizeIsNormal(name);
    NormalizeFixes(Normalize(name));
  }
}
