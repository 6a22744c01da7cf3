/**
 * The text transformation `clean_non_ascii` applies to the content of every
 * Java file: German diacritics are spelled out, one `str::replace` per table
 * entry in table order, and unless non-ASCII characters are kept, every
 * remaining non-ASCII character is deleted.
 */
module Transliteration {

  predicate IsAscii(c: char) {
    c as int < 128
  }

  /** The replacement table, in the order the fold applies it. */
  const Replacements: seq<(char, string)> := [
    ('\U{C4}', "Ae"),  // A with diaeresis
    ('\U{E4}', "ae"),  // a with diaeresis
    ('\U{D6}', "Oe"),  // O with diaeresis
    ('\U{F6}', "oe"),  // o with diaeresis
    ('\U{DC}', "Ue"),  // U with diaeresis
    ('\U{FC}', "ue"),  // u with diaeresis
    ('\U{DF}', "ss")   // sharp s
  ]

  /** `c` is one of the characters the table replaces. */
  predicate IsReplaced(c: char) {
    exists k :: 0 <= k < |Replacements| && Replacements[k].0 == c
  }

  /** `str::replace` with a single-character pattern: every `from` becomes `to`. */
  function ReplaceChar(s: string, from: char, to: string): string {
    if s == [] then []
    else (if s[0] == from then to else [s[0]]) + ReplaceChar(s[1..], from, to)
  }

  /** The fold over the table: each pair's `replace` runs on the previous result. */
  function ReplaceAll(s: string, table: seq<(char, string)>): string
    decreases |table|
  {
    if table == [] then s
    else ReplaceAll(ReplaceChar(s, table[0].0, table[0].1), table[1..])
  }

  /** The second step: `replace(|c| !c.is_ascii(), "")`. */
  function StripNonAscii(s: string): string {
    if s == [] then []
    else (if IsAscii(s[0]) then [s[0]] else []) + StripNonAscii(s[1..])
  }

  /** The content `clean_non_ascii` computes for a file whose content is `s`. */
  function CleanContent(s: string, keepNonAscii: bool): string {
    var t := ReplaceAll(s, Replacements);
    if keepNonAscii then t else StripNonAscii(t)
  }

  // ---------------------------------------------------------------------------
  // An independent, character-by-character reference definition.

  /** What one character becomes. */
  function Image(c: char, keepNonAscii: bool): string {
    if c == '\U{C4}' then "Ae"
    else if c == '\U{E4}' then "ae"
    else if c == '\U{D6}' then "Oe"
    else if c == '\U{F6}' then "oe"
    else if c == '\U{DC}' then "Ue"
    else if c == '\U{FC}' then "ue"
    else if c == '\U{DF}' then "ss"
    else if keepNonAscii || IsAscii(c) then [c]
    else []
  }

  function CharWise(s: string, keepNonAscii: bool): string {
    if s == [] then [] else Image(s[0], keepNonAscii) + CharWise(s[1..], keepNonAscii)
  }

  /** `c` survives the transformation unchanged. */
  predicate Stable(c: char, keepNonAscii: bool) {
    !IsReplaced(c) && (keepNonAscii || IsAscii(c))
  }

  // ---------------------------------------------------------------------------
  // Lemmas.

  lemma NotReplaced(c: char)
    requires c != '\U{C4}' && c != '\U{E4}' && c != '\U{D6}' && c != '\U{F6}'
    requires c != '\U{DC}' && c != '\U{FC}' && c != '\U{DF}'
    ensures !IsReplaced(c)
  {
    assert forall k :: 0 <= k < |Replacements| ==> Replacements[k].0 != c;
  }

  lemma {:induction false} ReplaceCharAppend(a: string, b: string, from: char, to: string)
    ensures ReplaceChar(a + b, from, to) == ReplaceChar(a, from, to) + ReplaceChar(b, from, to)
  {
    if a != [] {
      assert (a + b)[0] == a[0];
      assert (a + b)[1..] == a[1..] + b;
      ReplaceCharAppend(a[1..], b, from, to);
    } else {
      assert a + b == b;
    }
  }

  lemma {:induction false} ReplaceAllAppend(a: string, b: string, table: seq<(char, string)>)
    ensures ReplaceAll(a + b, table) == ReplaceAll(a, table) + ReplaceAll(b, table)
    decreases |table|
  {
    if table != [] {
      ReplaceCharAppend(a, b, table[0].0, table[0].1);
      ReplaceAllAppend(ReplaceChar(a, table[0].0, table[0].1), ReplaceChar(b, table[0].0, table[0].1), table[1..]);
    }
  }

  lemma {:induction false} StripAppend(a: string, b: string)
    ensures StripNonAscii(a + b) == StripNonAscii(a) + StripNonAscii(b)
  {
    if a != [] {
      assert (a + b)[0] == a[0];
      assert (a + b)[1..] == a[1..] + b;
      StripAppend(a[1..], b);
    } else {
      assert a + b == b;
    }
  }

  lemma ReplaceCharOne(c: char, from: char, to: string)
    ensures ReplaceChar([c], from, to) == if c == from then to else [c]
  {
    assert [c][1..] == [];
  }
  lemma ReplaceCharTwo(x: char, y: char, from: char, to: string)
    requires x != from && y != from
    ensures ReplaceChar([x, y], from, to) == [x, y]
  {
    assert [x, y][1..] == [y];
    ReplaceCharOne(y, from, to);
  }
  /** A two-letter ASCII spelling passes through the rest of the table. */
  lemma {:induction false} ReplaceAllSpelling(x: char, y: char, table: seq<(char, string)>)
    requires IsAscii(x) && IsAscii(y)
    requires forall k :: 0 <= k < |table| ==> !IsAscii(table[k].0)
    ensures ReplaceAll([x, y], table) == [x, y]
    decreases |table|
  {
    if table != [] {
      ReplaceCharTwo(x, y, table[0].0, table[0].1);
      ReplaceAllSpelling(x, y, table[1..]);
    }
  }
  lemma {:induction false} ReplaceAllUntouched(c: char, table: seq<(char, string)>)
    requires forall k :: 0 <= k < |table| ==> table[k].0 != c
    ensures ReplaceAll([c], table) == [c]
    decreases |table|
  {
    if table != [] {
      ReplaceCharOne(c, table[0].0, table[0].1);
      ReplaceAllUntouched(c, table[1..]);
    }
  }
  /** The table entry that first matches `c` decides what `c` becomes. */
  lemma ReplaceAllHit(c: char, t: seq<(char, string)>, i: nat)
    requires i < |t| && t[i].0 == c && forall k :: 0 <= k < i ==> t[k].0 != c
    requires |t[i].1| == 2 && IsAscii(t[i].1[0]) && IsAscii(t[i].1[1])
    requires forall k :: 0 <= k < |t| ==> !IsAscii(t[k].0)
    ensures ReplaceAll([c], t) == t[i].1
  {
    ReplaceAllUntouched(c, t[..i]);
    ReplaceAllSplit([c], t, i);
    ReplaceCharOne(c, t[i].0, t[i].1);
    assert t[i].1 == [t[i].1[0], t[i].1[1]];
    ReplaceAllSpelling(t[i].1[0], t[i].1[1], t[i + 1..]);
    assert t[i..][0] == t[i] && t[i..][1..] == t[i + 1..];
  }

  lemma ReplaceAllOne(c: char)
    ensures ReplaceAll([c], Replacements) == Image(c, true)
  {
    var t := Replacements;
    assert forall k :: 0 <= k < |t| ==> !IsAscii(t[k].0);
    if c == t[0].0 { ReplaceAllHit(c, t, 0); }
    else if c == t[1].0 { ReplaceAllHit(c, t, 1); }
    else if c == t[2].0 { ReplaceAllHit(c, t, 2); }
    else if c == t[3].0 { ReplaceAllHit(c, t, 3); }
    else if c == t[4].0 { ReplaceAllHit(c, t, 4); }
    else if c == t[5].0 { ReplaceAllHit(c, t, 5); }
    else if c == t[6].0 { ReplaceAllHit(c, t, 6); }
    else { ReplaceAllUntouched(c, t); }
  }

  lemma {:induction false} ReplaceAllSplit(s: string, t: seq<(char, string)>, i: nat)
    requires i <= |t|
    ensures ReplaceAll(s, t) == ReplaceAll(ReplaceAll(s, t[..i]), t[i..])
    decreases i
  {
    if i > 0 {
      assert t[1..][..i - 1] == t[1..i];
      assert t[1..][i - 1..] == t[i..];
      ReplaceAllSplit(ReplaceChar(s, t[0].0, t[0].1), t[1..], i - 1);
      assert t[..i][0] == t[0] && t[..i][1..] == t[1..i];
    } else {
      assert t[..0] == [] && t[0..] == t;
    }
  }

  /** The fold over the whole table acts on each character on its own. */
  lemma {:induction false} ReplaceAllIsCharWise(s: string)
    ensures ReplaceAll(s, Replacements) == CharWise(s, true)
  {
    if s != [] {
      assert s == [s[0]] + s[1..];
      ReplaceAllAppend([s[0]], s[1..], Replacements);
      ReplaceAllOne(s[0]);
      ReplaceAllIsCharWise(s[1..]);
    }
  }

  lemma {:induction false} StripCharWise(s: string)
    ensures StripNonAscii(CharWise(s, true)) == CharWise(s, false)
  {
    if s != [] {
      var img := Image(s[0], true);
      StripAppend(img, CharWise(s[1..], true));
      StripCharWise(s[1..]);
      if |img| == 2 {
        assert img == [img[0]] + [img[1]];
        StripAppend([img[0]], [img[1]]);
      }
    }
  }

  lemma {:induction false} CharWiseStable(s: string, keepNonAscii: bool)
    ensures forall c :: c in CharWise(s, keepNonAscii) ==> Stable(c, keepNonAscii)
  {
    if s != [] {
      CharWiseStable(s[1..], keepNonAscii);
      var img := Image(s[0], keepNonAscii);
      forall c | c in img ensures Stable(c, keepNonAscii) {
        if c == s[0] && img == [c] {
          NotReplaced(c);
        } else {
          NotReplaced(c);
        }
      }
    }
  }

  lemma {:induction false} CharWiseAppend(a: string, b: string, keepNonAscii: bool)
    ensures CharWise(a + b, keepNonAscii) == CharWise(a, keepNonAscii) + CharWise(b, keepNonAscii)
  {
    if a != [] {
      assert (a + b)[0] == a[0];
      assert (a + b)[1..] == a[1..] + b;
      CharWiseAppend(a[1..], b, keepNonAscii);
    } else {
      assert a + b == b;
    }
  }

  /**
   * None of the table's characters is left, and unless non-ASCII characters
   * are kept the result is pure ASCII.
   */
  lemma CleanContentIsStable(s: string, keepNonAscii: bool)
    ensures forall c :: c in CleanContent(s, keepNonAscii) ==> Stable(c, keepNonAscii)
  {
    CleanContentIsCharWise(s, keepNonAscii);
    CharWiseStable(s, keepNonAscii);
  }

  /** The fold of `replace` calls acts on each character on its own. */
  lemma CleanContentIsCharWise(s: string, keepNonAscii: bool)
    ensures CleanContent(s, keepNonAscii) == CharWise(s, keepNonAscii)
  {
    ReplaceAllIsCharWise(s);
    StripCharWise(s);
  }

  /** Transforming a concatenation transforms the parts: the transformation is a homomorphism. */
  lemma CleanContentAppend(a: string, b: string, keepNonAscii: bool)
    ensures CleanContent(a + b, keepNonAscii) == CleanContent(a, keepNonAscii) + CleanContent(b, keepNonAscii)
  {
    CleanContentIsCharWise(a + b, keepNonAscii);
    CleanContentIsCharWise(a, keepNonAscii);
    CleanContentIsCharWise(b, keepNonAscii);
    CharWiseAppend(a, b, keepNonAscii);
  }

  lemma {:induction false} CharWiseOfStable(s: string, keepNonAscii: bool)
    requires forall c :: c in s ==> Stable(c, keepNonAscii)
    ensures CharWise(s, keepNonAscii) == s
  {
    if s != [] {
      assert Stable(s[0], keepNonAscii);
      assert Replacements[0].0 == '\U{C4}' && Replacements[1].0 == '\U{E4}' && Replacements[2].0 == '\U{D6}'
        && Replacements[3].0 == '\U{F6}' && Replacements[4].0 == '\U{DC}' && Replacements[5].0 == '\U{FC}'
        && Replacements[6].0 == '\U{DF}';
      CharWiseOfStable(s[1..], keepNonAscii);
    }
  }

  /**
   * A file is left alone exactly when every character of it is stable: it holds
   * none of the table's characters, and only ASCII unless non-ASCII is kept.
   */
  lemma CleanContentUnchangedIff(s: string, keepNonAscii: bool)
    ensures CleanContent(s, keepNonAscii) == s <==> forall c :: c in s ==> Stable(c, keepNonAscii)
  {
    CleanContentIsStable(s, keepNonAscii);
    if forall c :: c in s ==> Stable(c, keepNonAscii) {
      CleanContentIsCharWise(s, keepNonAscii);
      CharWiseOfStable(s, keepNonAscii);
    }
  }

  /** ASCII text without the table's characters is an ASCII text: it is never rewritten. */
  lemma CleanContentKeepsAscii(s: string, keepNonAscii: bool)
    requires forall c :: c in s ==> IsAscii(c)
    ensures CleanContent(s, keepNonAscii) == s
  {
    forall c | c in s ensures Stable(c, keepNonAscii) {
      NotReplaced(c);
    }
    CleanContentUnchangedIff(s, keepNonAscii);
  }

  /** A second pass finds nothing left to change. */
  lemma CleanContentIdempotent(s: string, keepNonAscii: bool)
    ensures CleanContent(CleanContent(s, keepNonAscii), keepNonAscii) == CleanContent(s, keepNonAscii)
  {
    CleanContentIsStable(s, keepNonAscii);
    CleanContentUnchangedIff(CleanContent(s, keepNonAscii), keepNonAscii);
  }

  /**
   * The table is applied whether or not non-ASCII is kept: the name with a
   * u-diaeresis is spelled out in both modes.
   */
  lemma MuellerSpelledOut(keepNonAscii: bool)
    ensures CleanContent("M\U{FC}ller", keepNonAscii) == "Mueller"
  {
    var s := "M\U{FC}ller";
    CleanContentIsCharWise(s, keepNonAscii);
    assert s[1..] == "\U{FC}ller" && s[2..] == "ller" && s[3..] == "ler";
    assert s[4..] == "er" && s[5..] == "r" && s[6..] == "";
    assert CharWise(s[6..], keepNonAscii) == "";
    assert CharWise(s[5..], keepNonAscii) == "r";
    assert CharWise(s[4..], keepNonAscii) == "er";
    assert CharWise(s[3..], keepNonAscii) == "ler";
    assert CharWise(s[2..], keepNonAscii) == "ller";
    assert CharWise(s[1..], keepNonAscii) == "ueller";
  }

  /** With non-ASCII kept, characters outside the table survive. */
  lemma KeptCharactersSurvive()
    ensures CleanContent("\U{E9}t\U{E9}", true) == "\U{E9}t\U{E9}"
    ensures CleanContent("\U{E9}t\U{E9}", false) == "t"
  {
    var s := "\U{E9}t\U{E9}";
    CleanContentIsCharWise(s, true);
    CleanContentIsCharWise(s, false);
    assert s[1..] == "t\U{E9}" && s[2..] == "\U{E9}" && s[3..] == "";
  }
}
