/**
 * Label formatting of `app.js`: `toTitleCase` (app.js:24-28), which turns a
 * folder or file name into the label of its tab or tree row, and the slug
 * that `highlightTabForFile` computes back from a tab's label (app.js:309).
 */
module TitleCase {
  import opened Text

  /**
   * The global replacement `t.replace(/\w\S*\/g, w => upper(w[0]) + lower(w[1..]))`
   * as a left-to-right scan. `inMatch` says whether the scan is inside a
   * match: a match starts at a word character met outside a match and runs
   * up to the next whitespace character.
   */
  function Capitalize(t: string, inMatch: bool): (r: string)
    ensures |r| == |t|
  {
    if t == [] then []
    else
      var c := t[0];
      if IsSpace(c) then [c] + Capitalize(t[1..], false)
      else if inMatch then [Lower(c)] + Capitalize(t[1..], true)
      else if IsWordChar(c) then [Upper(c)] + Capitalize(t[1..], true)
      else [c] + Capitalize(t[1..], false)
  }

  /** `toTitleCase`: hyphens become spaces, then every word is capitalised. */
  function ToTitleCase(s: string): (r: string)
    ensures |r| == |s|
  {
    Capitalize(ReplaceChar(s, '-', ' '), false)
  }

  /** The folder name a tab stands for: its label trimmed, lower-cased, spaces to hyphens. */
  function Slug(caption: string): (r: string)
    ensures ' ' !in r && |r| <= |caption|
  {
    ReplaceChar(LowerString(Trim(caption)), ' ', '-')
  }

  /** Whether the scan of `Capitalize(t, start)` is inside a match on reaching position `i`. */
  function InMatchAt(t: string, start: bool, i: nat): bool
    requires i <= |t|
  {
    if i == 0 then start
    else !IsSpace(t[i - 1]) && (InMatchAt(t, start, i - 1) || IsWordChar(t[i - 1]))
  }

  /** What the replacement makes of character `c`, given whether a match is under way. */
  function CapitalizedChar(c: char, inMatch: bool): char {
    if IsSpace(c) then c
    else if inMatch then Lower(c)
    else if IsWordChar(c) then Upper(c)
    else c
  }

  lemma {:induction false} InMatchAtShift(t: string, start: bool, i: nat)
    requires 0 < |t| && i < |t|
    ensures InMatchAt(t, start, i + 1)
         == InMatchAt(t[1..], !IsSpace(t[0]) && (start || IsWordChar(t[0])), i)
  {
    if i > 0 {
      InMatchAtShift(t, start, i - 1);
    }
  }

  /** The scan, character by character: each output character depends on its input character and the match state. */
  lemma {:induction false} CapitalizeAt(t: string, start: bool, i: nat)
    requires i < |t|
    ensures Capitalize(t, start)[i] == CapitalizedChar(t[i], InMatchAt(t, start, i))
    decreases i
  {
    if i > 0 {
      var next := !IsSpace(t[0]) && (start || IsWordChar(t[0]));
      assert Capitalize(t, start)[i] == Capitalize(t[1..], next)[i - 1];
      CapitalizeAt(t[1..], next, i - 1);
      InMatchAtShift(t, start, i - 1);
    }
  }

  /**
   * `toTitleCase` position by position: a hyphen becomes a space, the first
   * character of each `\w\S*` run is upper-cased, the rest of the run is
   * lower-cased, and every other character is kept.
   */
  lemma TitleCaseAt(s: string, i: nat)
    requires i < |s|
    ensures var t := ReplaceChar(s, '-', ' ');
            ToTitleCase(s)[i] == CapitalizedChar(t[i], InMatchAt(t, false, i))
  {
    CapitalizeAt(ReplaceChar(s, '-', ' '), false, i);
  }

  /** Hyphens become spaces; a word character after a space or at the start is upper-cased. */
  lemma TitleCaseWordStarts(s: string, i: nat)
    requires i < |s|
    ensures s[i] == '-' ==> ToTitleCase(s)[i] == ' '
    ensures IsWordChar(s[i]) && (i == 0 || s[i - 1] == '-' || IsSpace(s[i - 1]))
            ==> ToTitleCase(s)[i] == Upper(s[i])
    ensures 0 < i && IsWordChar(s[i - 1]) && s[i] != '-' && !IsSpace(s[i])
            ==> ToTitleCase(s)[i] == Lower(s[i])
  {
    var t := ReplaceChar(s, '-', ' ');
    TitleCaseAt(s, i);
    if 0 < i {
      assert InMatchAt(t, false, i)
          == (!IsSpace(t[i - 1]) && (InMatchAt(t, false, i - 1) || IsWordChar(t[i - 1])));
    }
  }

  /** Only letter case changes: lower-casing undoes the capitalisation. */
  lemma {:induction false} LowerCapitalize(t: string, start: bool)
    ensures LowerString(Capitalize(t, start)) == LowerString(t)
  {
    var r := Capitalize(t, start);
    forall i | 0 <= i < |t| ensures LowerString(r)[i] == LowerString(t)[i] {
      CapitalizeAt(t, start, i);
    }
  }

  /** Capitalisation never turns a character into whitespace or whitespace into something else. */
  lemma CapitalizeKeepsSpaces(t: string, start: bool, i: nat)
    requires i < |t|
    ensures IsSpace(Capitalize(t, start)[i]) <==> IsSpace(t[i])
  {
    CapitalizeAt(t, start, i);
  }

  /**
   * A folder name that a tab can be matched back to: no upper-case letter,
   * no whitespace, and no hyphen at either end (that would become a space
   * that `trim` removes).
   */
  predicate SlugSafe(name: string) {
    && (forall i :: 0 <= i < |name| ==> !IsUpper(name[i]) && !IsSpace(name[i]))
    && (|name| > 0 ==> name[0] != '-' && name[|name| - 1] != '-')
  }

  /** The slug of a folder's tab label is the folder's name. */
  lemma SlugOfTitleCase(name: string)
    requires SlugSafe(name)
    ensures Slug(ToTitleCase(name)) == name
  {
    var t := ReplaceChar(name, '-', ' ');
    var r := ToTitleCase(name);
    if |name| > 0 {
      CapitalizeKeepsSpaces(t, false, 0);
      CapitalizeKeepsSpaces(t, false, |t| - 1);
    }
    assert Trim(r) == r;
    LowerCapitalize(t, false);
    assert LowerString(t) == t;
    assert ReplaceChar(t, ' ', '-') == name;
  }
}
