/**
 The file names of zmailer/intl/l10nflist.c taken apart again: which components a name has for a mask, and
 that different masks have different names.
 */
module L10nNames {
  import opened Sequences
  import opened Splitting
  import opened BitCount
  import opened BitVectors
  import opened L10nList

  // ------------------------------------------------------------------ the components of a name

  /** A component and the character in front of it; the first has none. */
  datatype Field = Field(mark: char, text: string)

  predicate IsMark(c: char) {
    c == '_' || c == '.' || c == '@' || c == '+' || c == ','
  }

  predicate Unmarked(s: string) {
    forall i :: 0 <= i < |s| ==> !IsMark(s[i]) && s[i] != '/' && s[i] != ':'
  }

  /** How long s goes on without a mark. */
  function Unbroken(s: string): (n: nat)
    ensures n <= |s| && (n < |s| ==> IsMark(s[n]))
  {
    if s == [] || IsMark(s[0]) then 0 else 1 + Unbroken(s[1..])
  }

  /** Cuts s at its marks. */
  function Fields(mark: char, s: string): seq<Field>
    decreases |s|
  {
    var n := Unbroken(s);
    [Field(mark, s[..n])] + if n == |s| then [] else Fields(s[n], s[n + 1..])
  }

  lemma {:induction false} UnbrokenIs(text: string, rest: string)
    requires Unmarked(text) && (rest == [] || IsMark(rest[0]))
    ensures Unbroken(text + rest) == |text|
  {
    if text == [] {
      assert text + rest == rest;
    } else {
      assert (text + rest)[1..] == text[1..] + rest;
      UnbrokenIs(text[1..], rest);
    }
  }

  /** The fields written one after the other. */
  function Written(fs: seq<Field>): string {
    if fs == [] then "" else [fs[0].mark] + fs[0].text + Written(fs[1..])
  }

  predicate WellMarked(fs: seq<Field>) {
    forall i {:trigger fs[i]} :: 0 <= i < |fs| ==> IsMark(fs[i].mark) && Unmarked(fs[i].text)
  }

  lemma AfterText(text: string, mark: char, next: string, rest: string)
    ensures var s := text + ([mark] + next + rest); s[|text|] == mark && s[|text| + 1..] == next + rest
  {
  }

  lemma {:induction false} FieldsOfWritten(mark: char, text: string, fs: seq<Field>)
    requires Unmarked(text) && WellMarked(fs)
    ensures Fields(mark, text + Written(fs)) == [Field(mark, text)] + fs
    decreases |fs|
  {
    var rest := Written(fs);
    UnbrokenIs(text, rest);
    assert (text + rest)[..|text|] == text;
    if fs != [] {
      AfterText(text, fs[0].mark, fs[0].text, Written(fs[1..]));
      FieldsOfWritten(fs[0].mark, fs[0].text, fs[1..]);
      assert fs == [fs[0]] + fs[1..];
    }
  }

  lemma {:induction false} WrittenConcat(a: seq<Field>, b: seq<Field>)
    ensures Written(a + b) == Written(a) + Written(b)
  {
    if a == [] {
      assert a + b == b;
    } else {
      assert (a + b)[1..] == a[1..] + b;
      WrittenConcat(a[1..], b);
      Regroup([a[0].mark] + a[0].text, Written(a[1..]), Written(b));
    }
  }

  // ------------------------------------------------------------------ which components a mask selects

  /** The bits of a mask. */
  datatype Flags = Flags(revision: bool, sponsor: bool, special: bool, norm: bool,
                         codeset: bool, territory: bool, audience: bool, modifier: bool)

  function FlagsOf(mask: nat): Flags {
    Flags(Bit(mask, 1), Bit(mask, 2), Bit(mask, 4), Bit(mask, 8), Bit(mask, 16), Bit(mask, 32), Bit(mask, 64), Bit(mask, 128))
  }

  function Maybe(b: bool, mark: char, text: string): seq<Field> {
    if b then [Field(mark, text)] else []
  }

  /** The components behind the language. */
  function Selected(f: Flags, p: Parts): seq<Field> {
    Maybe(f.territory, '_', p.territory) + (Maybe(f.codeset, '.', p.codeset) + (Maybe(f.norm, '.', p.normalized) + SelectedLate(f, p)))
  }

  function SelectedLate(f: Flags, p: Parts): seq<Field> {
    Maybe(f.modifier || f.audience, if f.audience then '+' else '@', p.modifier) + (Maybe(f.special, '+', p.special)
    + (Maybe(f.sponsor || f.revision, ',', if f.sponsor then p.sponsor else "") + Maybe(f.revision, '_', p.revision)))
  }

  /** The components that can be told apart in a name. */
  predicate PartsOk(p: Parts) {
    && Unmarked(p.language) && Unmarked(p.territory) && Unmarked(p.codeset) && Unmarked(p.normalized)
    && Unmarked(p.modifier) && Unmarked(p.special) && Unmarked(p.sponsor) && Unmarked(p.revision)
  }

  lemma MarkedMore(b: bool, mark: char, text: string, rest: seq<Field>)
    requires IsMark(mark) && Unmarked(text) && WellMarked(rest)
    ensures WellMarked(Maybe(b, mark, text) + rest)
  {
    var fs := Maybe(b, mark, text) + rest;
    forall i | 0 <= i < |fs| ensures IsMark(fs[i].mark) && Unmarked(fs[i].text) {
      assert fs[i] == if b then (if i == 0 then Field(mark, text) else rest[i - 1]) else rest[i];
    }
  }

  lemma LateMarked(f: Flags, p: Parts)
    requires PartsOk(p)
    ensures WellMarked(SelectedLate(f, p))
  {
    var l4 := Maybe(f.revision, '_', p.revision);
    MarkedMore(f.revision, '_', p.revision, []);
    assert l4 + [] == l4;
    var l3 := Maybe(f.sponsor || f.revision, ',', if f.sponsor then p.sponsor else "") + l4;
    MarkedMore(f.sponsor || f.revision, ',', if f.sponsor then p.sponsor else "", l4);
    MarkedMore(f.special, '+', p.special, l3);
    MarkedMore(f.modifier || f.audience, if f.audience then '+' else '@', p.modifier, Maybe(f.special, '+', p.special) + l3);
  }

  lemma SelectedMarked(f: Flags, p: Parts)
    requires PartsOk(p)
    ensures WellMarked(Selected(f, p))
  {
    LateMarked(f, p);
    MarkedMore(f.norm, '.', p.normalized, SelectedLate(f, p));
    MarkedMore(f.codeset, '.', p.codeset, Maybe(f.norm, '.', p.normalized) + SelectedLate(f, p));
    MarkedMore(f.territory, '_', p.territory, Maybe(f.codeset, '.', p.codeset) + (Maybe(f.norm, '.', p.normalized) + SelectedLate(f, p)));
  }

  lemma WrittenMaybe(b: bool, mark: char, text: string, rest: seq<Field>)
    ensures Written(Maybe(b, mark, text) + rest) == (if b then [mark] + text else "") + Written(rest)
  {
    WrittenConcat(Maybe(b, mark, text), rest);
    assert [Field(mark, text)][1..] == [];
    assert Written([Field(mark, text)]) == [mark] + text + "";
  }

  function Opt(b: bool, mark: char, text: string): string {
    if b then [mark] + text else ""
  }

  lemma WrittenLate(f: Flags, p: Parts)
    ensures Written(SelectedLate(f, p)) ==
      Opt(f.modifier || f.audience, if f.audience then '+' else '@', p.modifier)
      + (Opt(f.special, '+', p.special)
      + (Opt(f.sponsor || f.revision, ',', if f.sponsor then p.sponsor else "") + Opt(f.revision, '_', p.revision)))
  {
    var l4 := Maybe(f.revision, '_', p.revision);
    WrittenMaybe(f.revision, '_', p.revision, []);
    assert l4 + [] == l4 && Opt(f.revision, '_', p.revision) + "" == Opt(f.revision, '_', p.revision);
    var l3 := Maybe(f.sponsor || f.revision, ',', if f.sponsor then p.sponsor else "") + l4;
    WrittenMaybe(f.sponsor || f.revision, ',', if f.sponsor then p.sponsor else "", l4);
    WrittenMaybe(f.special, '+', p.special, l3);
    WrittenMaybe(f.modifier || f.audience, if f.audience then '+' else '@', p.modifier, Maybe(f.special, '+', p.special) + l3);
  }

  lemma WrittenSelected(f: Flags, p: Parts)
    ensures Written(Selected(f, p)) ==
      Opt(f.territory, '_', p.territory) + (Opt(f.codeset, '.', p.codeset) + (Opt(f.norm, '.', p.normalized) + Written(SelectedLate(f, p))))
  {
    WrittenMaybe(f.norm, '.', p.normalized, SelectedLate(f, p));
    WrittenMaybe(f.codeset, '.', p.codeset, Maybe(f.norm, '.', p.normalized) + SelectedLate(f, p));
    WrittenMaybe(f.territory, '_', p.territory, Maybe(f.codeset, '.', p.codeset) + (Maybe(f.norm, '.', p.normalized) + SelectedLate(f, p)));
  }

  lemma Rebracket(j: string, t: string, c: string, n: string, m: string, s: string, x: string, y: string)
    ensures j + t + c + n + m + s + (x + y) == j + (t + (c + (n + (m + (s + (x + y))))))
  {
    Regroup(j + t + c + n + m, s, x + y);
    Regroup(j + t + c + n, m, s + (x + y));
    Regroup(j + t + c, n, m + (s + (x + y)));
    Regroup(j + t, c, n + (m + (s + (x + y))));
    Regroup(j, t, c + (n + (m + (s + (x + y)))));
  }

  /** The name of a locale, without directories and file name. */
  function Locale(mask: nat, p: Parts): string {
    p.language + Written(Selected(FlagsOf(mask), p))
  }

  lemma NameIs(dirs: seq<string>, mask: nat, p: Parts)
    ensures NameOf(dirs, mask, p) == Joined(Effective(dirs, p)) + Locale(mask, p) + "/" + p.filename
  {
    var f, j := FlagsOf(mask), Joined(Effective(dirs, p)) + p.language;
    WrittenSelected(f, p);
    WrittenLate(f, p);
    var x, y := Opt(f.sponsor || f.revision, ',', if f.sponsor then p.sponsor else ""), Opt(f.revision, '_', p.revision);
    Rebracket(j, Opt(f.territory, '_', p.territory), Opt(f.codeset, '.', p.codeset), Opt(f.norm, '.', p.normalized),
              Opt(f.modifier || f.audience, if f.audience then '+' else '@', p.modifier), Opt(f.special, '+', p.special), x, y);
    Regroup(Joined(Effective(dirs, p)), p.language, Written(Selected(f, p)));
  }

  /** If the language is an absolute path, the directories are left out. */
  lemma AbsoluteLanguage(dirs: seq<string>, mask: nat, p: Parts)
    requires p.language != [] && p.language[0] == '/'
    ensures NameOf(dirs, mask, p) == Locale(mask, p) + "/" + p.filename
  {
    NameIs(dirs, mask, p);
    assert "" + Locale(mask, p) == Locale(mask, p);
  }

  // ------------------------------------------------------------------ directories

  function WithColons(dirs: seq<string>): string
    requires dirs != []
  {
    if |dirs| == 1 then dirs[0] else dirs[0] + ([':'] + WithColons(dirs[1..]))
  }

  lemma {:induction false} JoinedIs(dirs: seq<string>)
    requires dirs != []
    ensures Joined(dirs) == WithColons(dirs) + "/"
  {
    if |dirs| > 1 {
      JoinedIs(dirs[1..]);
      Regroup(dirs[0], ":", WithColons(dirs[1..]) + "/");
      Regroup(dirs[0], ":" + WithColons(dirs[1..]), "/");
      Regroup(":", WithColons(dirs[1..]), "/");
    }
  }

  lemma {:induction false} SplitDirs(dirs: seq<string>)
    requires dirs != [] && forall i :: 0 <= i < |dirs| ==> ':' !in dirs[i]
    ensures Split(WithColons(dirs), ':') == dirs
  {
    SplitNone(dirs[0], ':');
    if |dirs| == 1 {
      assert dirs == [dirs[0]];
    } else {
      SplitDirs(dirs[1..]);
      SplitConcat(dirs[0], ':', WithColons(dirs[1..]));
    }
  }

  lemma NoSlash(f: Flags, p: Parts)
    requires PartsOk(p)
    ensures '/' !in p.language + Written(Selected(f, p))
  {
    SelectedMarked(f, p);
    WrittenNoSlash(Selected(f, p));
  }

  lemma {:induction false} WrittenNoSlash(fs: seq<Field>)
    requires WellMarked(fs)
    ensures '/' !in Written(fs)
  {
    if fs != [] { WrittenNoSlash(fs[1..]); }
  }

  /** The name split at its slashes: the file name, before it the locale, before it the directories. */
  lemma SplitName(dirs: seq<string>, mask: nat, p: Parts)
    requires PartsOk(p) && '/' !in p.filename
    ensures Split(NameOf(dirs, mask, p), '/') ==
      (if dirs == [] then [] else Split(WithColons(dirs), '/')) + [Locale(mask, p), p.filename]
  {
    var l := Locale(mask, p);
    NameIs(dirs, mask, p);
    NoSlash(FlagsOf(mask), p);
    SplitNone(l, '/');
    SplitNone(p.filename, '/');
    if dirs == [] {
      Regroup(l, "/", p.filename);
      SplitConcat(l, '/', p.filename);
      assert "" + l == l;
    } else {
      JoinedIs(dirs);
      var d := WithColons(dirs);
      TwoSlashes(d, l, p.filename);
    }
  }

  lemma TwoSlashes(d: string, l: string, f: string)
    requires Split(l, '/') == [l] && Split(f, '/') == [f]
    ensures Split(d + "/" + l + "/" + f, '/') == Split(d, '/') + [l, f]
  {
    Regroup(d, "/", l);
    SplitConcat(d, '/', l);
    Regroup(d + "/" + l, "/", f);
    SplitConcat(d + "/" + l, '/', f);
  }

  /** Cut at its slashes and marks, a name gives back the directories, the language and exactly the components
      whose bits are set, in their order. */
  lemma TakenApart(dirs: seq<string>, mask: nat, p: Parts)
    requires PartsOk(p) && '/' !in p.filename && forall i :: 0 <= i < |dirs| ==> ':' !in dirs[i]
    ensures var name := NameOf(dirs, mask, p); var g := Split(name, '/');
      && |g| >= 2 && g[|g| - 1] == p.filename && |g[|g| - 2]| + 1 + |p.filename| <= |name|
      && Fields('\0', g[|g| - 2]) == [Field('\0', p.language)] + Selected(FlagsOf(mask), p)
      && (dirs == [] ==> |g| == 2)
      && (dirs != [] ==> |g[|g| - 2]| + |p.filename| + 2 <= |name|)
      && (dirs != [] ==> Split(name[..|name| - |g[|g| - 2]| - |p.filename| - 2], ':') == dirs)
  {
    var name, l := NameOf(dirs, mask, p), Locale(mask, p);
    NameIs(dirs, mask, p);
    SplitName(dirs, mask, p);
    LocaleFields(mask, p);
    LastTwo(if dirs == [] then [] else Split(WithColons(dirs), '/'), l, p.filename);
    if dirs != [] {
      JoinedIs(dirs);
      SplitDirs(dirs);
      InFront(WithColons(dirs), l, p.filename);
    }
  }

  lemma LastTwo(front: seq<string>, l: string, f: string)
    ensures var g := front + [l, f]; |g| >= 2 && g[|g| - 1] == f && g[|g| - 2] == l && (front == [] ==> |g| == 2)
  {
  }

  lemma InFront(d: string, l: string, f: string)
    ensures var name := d + "/" + l + "/" + f; |name| == |d| + |l| + |f| + 2 && name[..|d|] == d
  {
  }

  // ------------------------------------------------------------------ different masks, different names

  predicate Cen(f: Flags) {
    f.revision || f.sponsor || f.special || f.audience
  }

  predicate Xpg(f: Flags) {
    f.codeset || f.norm || f.modifier
  }

  /** The patterns for which successors are made, on their bits. */
  predicate AllowedFlags(f: Flags) {
    (!Cen(f) || !Xpg(f)) && (!f.codeset || !f.norm)
  }

  /** A locale whose components tell masks apart: _nl_explode_name sets the bit of the normalized codeset only
      if it differs from the codeset. */
  predicate Telling(p: Parts) {
    p.codeset != p.normalized && p.modifier != p.special && p.sponsor != ""
  }

  function FirstMark(fs: seq<Field>): char {
    if fs == [] then '\0' else fs[0].mark
  }

  lemma Peel(b: bool, b': bool, mark: char, text: string, rest: seq<Field>, rest': seq<Field>)
    requires Maybe(b, mark, text) + rest == Maybe(b', mark, text) + rest'
    requires rest != [] ==> rest[0] != Field(mark, text)
    requires rest' != [] ==> rest'[0] != Field(mark, text)
    ensures b == b' && rest == rest'
  {
    var l, l' := Maybe(b, mark, text) + rest, Maybe(b', mark, text) + rest';
    assert b ==> l[0] == Field(mark, text) && l[1..] == rest;
    assert b' ==> l'[0] == Field(mark, text) && l'[1..] == rest';
    assert !b ==> l == rest;
    assert !b' ==> l' == rest';
  }

  function Sponsored(f: Flags, p: Parts): seq<Field> {
    Maybe(f.sponsor || f.revision, ',', if f.sponsor then p.sponsor else "") + Maybe(f.revision, '_', p.revision)
  }

  lemma SameSponsored(f: Flags, g: Flags, p: Parts)
    requires p.sponsor != "" && Sponsored(f, p) == Sponsored(g, p)
    ensures f.sponsor == g.sponsor && f.revision == g.revision
  {
    var l, l' := Sponsored(f, p), Sponsored(g, p);
    assert |l| == (if f.sponsor || f.revision then 1 else 0) + (if f.revision then 1 else 0);
    assert |l'| == (if g.sponsor || g.revision then 1 else 0) + (if g.revision then 1 else 0);
    assert f.sponsor || f.revision ==> l[0].text == if f.sponsor then p.sponsor else "";
    assert g.sponsor || g.revision ==> l'[0].text == if g.sponsor then p.sponsor else "";
  }

  lemma SponsoredMark(f: Flags, p: Parts)
    ensures FirstMark(Sponsored(f, p)) == if f.sponsor || f.revision then ',' else '\0'
  {
  }

  function SpecialOn(f: Flags, p: Parts): seq<Field> {
    Maybe(f.special, '+', p.special) + Sponsored(f, p)
  }

  lemma SpecialMark(f: Flags, p: Parts)
    ensures SpecialOn(f, p) != [] ==> SpecialOn(f, p)[0] == if f.special then Field('+', p.special) else Sponsored(f, p)[0]
    ensures FirstMark(SpecialOn(f, p)) == if f.special then '+' else FirstMark(Sponsored(f, p))
  {
  }

  lemma SameLate(f: Flags, g: Flags, p: Parts)
    requires Telling(p) && AllowedFlags(f) && AllowedFlags(g) && SelectedLate(f, p) == SelectedLate(g, p)
    ensures f.modifier == g.modifier && f.audience == g.audience && f.special == g.special
    ensures f.sponsor == g.sponsor && f.revision == g.revision
  {
    LateMark(f, p);
    LateMark(g, p);
    assert f.modifier == g.modifier;
    if !f.modifier {
      SpecialMark(f, p); SponsoredMark(f, p);
      SpecialMark(g, p); SponsoredMark(g, p);
      LateParts(f, p);
      LateParts(g, p);
      Peel(f.audience, g.audience, '+', p.modifier, SpecialOn(f, p), SpecialOn(g, p));
      Peel(f.special, g.special, '+', p.special, Sponsored(f, p), Sponsored(g, p));
      SameSponsored(f, g, p);
    }
  }

  lemma LateParts(f: Flags, p: Parts)
    requires AllowedFlags(f) && !f.modifier
    ensures SelectedLate(f, p) == Maybe(f.audience, '+', p.modifier) + SpecialOn(f, p)
  {
  }

  lemma LateMark(f: Flags, p: Parts)
    requires AllowedFlags(f)
    ensures FirstMark(SelectedLate(f, p)) != '_' && FirstMark(SelectedLate(f, p)) != '.'
    ensures FirstMark(SelectedLate(f, p)) == '@' <==> f.modifier
  {
    var m := Maybe(f.modifier || f.audience, if f.audience then '+' else '@', p.modifier);
    assert SelectedLate(f, p) == m + SpecialOn(f, p);
    SpecialMark(f, p);
    SponsoredMark(f, p);
    if m == [] {
      assert m + SpecialOn(f, p) == SpecialOn(f, p);
    } else {
      assert (m + SpecialOn(f, p))[0] == m[0];
    }
  }

  function Dotted(f: Flags, p: Parts): seq<Field> {
    Maybe(f.codeset, '.', p.codeset) + (Maybe(f.norm, '.', p.normalized) + SelectedLate(f, p))
  }

  lemma SameDotted(f: Flags, g: Flags, p: Parts)
    requires Telling(p) && AllowedFlags(f) && AllowedFlags(g) && Dotted(f, p) == Dotted(g, p)
    ensures f.codeset == g.codeset && f.norm == g.norm && SelectedLate(f, p) == SelectedLate(g, p)
  {
    LateMark(f, p);
    LateMark(g, p);
    Peel(f.codeset, g.codeset, '.', p.codeset, Maybe(f.norm, '.', p.normalized) + SelectedLate(f, p), Maybe(g.norm, '.', p.normalized) + SelectedLate(g, p));
    Peel(f.norm, g.norm, '.', p.normalized, SelectedLate(f, p), SelectedLate(g, p));
  }

  lemma DottedMark(f: Flags, p: Parts)
    requires AllowedFlags(f)
    ensures FirstMark(Dotted(f, p)) != '_'
  {
    LateMark(f, p);
    var n := Maybe(f.norm, '.', p.normalized) + SelectedLate(f, p);
    assert FirstMark(n) == if f.norm then '.' else FirstMark(SelectedLate(f, p));
    assert FirstMark(Dotted(f, p)) == if f.codeset then '.' else FirstMark(n);
  }

  lemma SameSelected(f: Flags, g: Flags, p: Parts)
    requires Telling(p) && AllowedFlags(f) && AllowedFlags(g) && Selected(f, p) == Selected(g, p)
    ensures f == g
  {
    DottedMark(f, p);
    DottedMark(g, p);
    Peel(f.territory, g.territory, '_', p.territory, Dotted(f, p), Dotted(g, p));
    SameDotted(f, g, p);
    SameLate(f, g, p);
  }

  lemma {:induction false} SameBits(c: nat, d: nat, n: nat)
    requires c < Power(n) && d < Power(n) && forall k :: 0 <= k < n ==> Bit(c, Power(k)) == Bit(d, Power(k))
    ensures c == d
  {
    if n > 0 {
      assert Bit(c, Power(0)) == Bit(d, Power(0));
      forall k | 0 <= k < n - 1 ensures Bit(c / 2, Power(k)) == Bit(d / 2, Power(k)) {
        assert Bit(c, Power(k + 1)) == Bit(d, Power(k + 1));
      }
      SameBits(c / 2, d / 2, n - 1);
    }
  }

  lemma EightBits(c: nat, d: nat)
    requires c < 256 && d < 256 && FlagsOf(c) == FlagsOf(d)
    ensures c == d
  {
    assert Power(0) == 1 && Power(1) == 2 && Power(2) == 4 && Power(3) == 8;
    assert Power(4) == 16 && Power(5) == 32 && Power(6) == 64 && Power(7) == 128 && Power(8) == 256;
    forall k | 0 <= k < 8 ensures Bit(c, Power(k)) == Bit(d, Power(k)) {
      assert k == 0 || k == 1 || k == 2 || k == 3 || k == 4 || k == 5 || k == 6 || k == 7;
    }
    SameBits(c, d, 8);
  }

  lemma SameFields(dirs: seq<string>, p: Parts, c: nat, d: nat)
    requires PartsOk(p) && '/' !in p.filename && (forall i :: 0 <= i < |dirs| ==> ':' !in dirs[i])
    requires NameOf(dirs, c, p) == NameOf(dirs, d, p)
    ensures [Field('\0', p.language)] + Selected(FlagsOf(c), p) == [Field('\0', p.language)] + Selected(FlagsOf(d), p)
  {
    SplitName(dirs, c, p);
    SplitName(dirs, d, p);
    var front := if dirs == [] then [] else Split(WithColons(dirs), '/');
    SecondLast(front, Locale(c, p), Locale(d, p), p.filename);
    LocaleFields(c, p);
    LocaleFields(d, p);
  }

  lemma SecondLast(front: seq<string>, l: string, l': string, f: string)
    requires front + [l, f] == front + [l', f]
    ensures l == l'
  {
    assert (front + [l, f])[|front|] == (front + [l', f])[|front|];
  }

  lemma LocaleFields(mask: nat, p: Parts)
    requires PartsOk(p)
    ensures Fields('\0', Locale(mask, p)) == [Field('\0', p.language)] + Selected(FlagsOf(mask), p)
  {
    SelectedMarked(FlagsOf(mask), p);
    FieldsOfWritten('\0', p.language, Selected(FlagsOf(mask), p));
  }

  /** The test on a bit pattern, bit by bit. */
  lemma AllowedMeans(c: nat, mask: nat)
    ensures Allowed(c, mask) <==> Sub(c, mask) && AllowedFlags(FlagsOf(c))
  {
  }

  lemma SameNames(p: Parts, c: nat, d: nat)
    requires Telling(p) && c < 256 && d < 256 && AllowedFlags(FlagsOf(c)) && AllowedFlags(FlagsOf(d))
    requires [Field('\0', p.language)] + Selected(FlagsOf(c), p) == [Field('\0', p.language)] + Selected(FlagsOf(d), p)
    ensures c == d
  {
    assert ([Field('\0', p.language)] + Selected(FlagsOf(c), p))[1..] == Selected(FlagsOf(c), p);
    assert ([Field('\0', p.language)] + Selected(FlagsOf(d), p))[1..] == Selected(FlagsOf(d), p);
    SameSelected(FlagsOf(c), FlagsOf(d), p);
    EightBits(c, d);
  }

  /** The bit patterns for which successors are made have different names. */
  lemma NamesDiffer(dirs: seq<string>, p: Parts, c: nat, d: nat, mask: nat)
    requires PartsOk(p) && Telling(p) && '/' !in p.filename && (forall i :: 0 <= i < |dirs| ==> ':' !in dirs[i])
    requires c < 256 && d < 256 && Allowed(c, mask) && Allowed(d, mask) && c != d
    ensures NameOf(dirs, c, p) != NameOf(dirs, d, p)
  {
    AllowedMeans(c, mask);
    AllowedMeans(d, mask);
    if NameOf(dirs, c, p) == NameOf(dirs, d, p) {
      SameFields(dirs, p, c, d);
      SameNames(p, c, d);
    }
  }

  /** c and d are different patterns with the same name. */
  ghost predicate Confused(dirs: seq<string>, p: Parts, c: nat, d: nat) {
    c < 256 && d < 256 && Allowed(c, 255) && Allowed(d, 255) && c != d && NameOf(dirs, c, p) == NameOf(dirs, d, p)
  }

  lemma SameSelection(dirs: seq<string>, p: Parts, c: nat, d: nat)
    requires Selected(FlagsOf(c), p) == Selected(FlagsOf(d), p)
    ensures NameOf(dirs, c, p) == NameOf(dirs, d, p)
  {
    NameIs(dirs, c, p);
    NameIs(dirs, d, p);
  }

  /** All names are different if and only if the components tell the masks apart. */
  lemma NamesDifferExactly(dirs: seq<string>, p: Parts)
    requires PartsOk(p) && '/' !in p.filename && (forall i :: 0 <= i < |dirs| ==> ':' !in dirs[i])
    ensures Telling(p) <==> forall c, d :: !Confused(dirs, p, c, d)
  {
    if Telling(p) {
      forall c, d ensures !Confused(dirs, p, c, d) {
        if Confused(dirs, p, c, d) { NamesDiffer(dirs, p, c, d, 255); }
      }
    } else {
      var c, d := Confusion(dirs, p);
      assert Confused(dirs, p, c, d);
    }
  }

  /** Two patterns that a locale with equal components confuses. */
  lemma Confusion(dirs: seq<string>, p: Parts) returns (c: nat, d: nat)
    requires !Telling(p)
    ensures Confused(dirs, p, c, d)
  {
    if p.codeset == p.normalized {
      c, d := 16, 8;
    } else if p.modifier == p.special {
      c, d := 64, 4;
    } else {
      c, d := 3, 1;
    }
    SameSelection(dirs, p, c, d);
  }

  // ------------------------------------------------------------------ the successors

  lemma FlagValues()
    ensures Value(1) == 1 && Value(2) == 2 && Value(4) == 4 && Value(8) == 8
    ensures Value(16) == 16 && Value(32) == 32 && Value(64) == 64 && Value(128) == 128
  {
    ValueHalf(1); ValueHalf(2); ValueHalf(4); ValueHalf(8);
    ValueHalf(16); ValueHalf(32); ValueHalf(64); ValueHalf(128);
  }

  lemma FlagsOfWord(x: bv16)
    ensures FlagsOf(Value(x)) ==
      Flags(x & 1 != 0, x & 2 != 0, x & 4 != 0, x & 8 != 0, x & 16 != 0, x & 32 != 0, x & 64 != 0, x & 128 != 0)
  {
    FlagValues();
    BitIsMask(x, 1); BitIsMask(x, 2); BitIsMask(x, 4); BitIsMask(x, 8);
    BitIsMask(x, 16); BitIsMask(x, 32); BitIsMask(x, 64); BitIsMask(x, 128);
  }

  lemma MaskGroups(x: bv16)
    ensures x & 0x47 == 0 <==> x & 1 == 0 && x & 2 == 0 && x & 4 == 0 && x & 64 == 0
    ensures x & 0x98 == 0 <==> x & 8 == 0 && x & 16 == 0 && x & 128 == 0
  {
  }

  /** The test on a bit pattern as it is written, with the values of CEN_SPECIFIC and XPG_SPECIFIC. */
  lemma AllowedIsMask(c: bv16, mask: bv16)
    ensures Allowed(Value(c), Value(mask)) <==>
      c & !mask == 0 && (c & 0x47 == 0 || c & 0x98 == 0) && (c & 0x10 == 0 || c & 0x08 == 0)
  {
    AllowedMeans(Value(c), Value(mask));
    SubIsMask(c, mask);
    FlagsOfWord(c);
    MaskGroups(c);
  }

  /** The successors for all patterns below n are those for the patterns above c, for each directory one for c,
      and those for the patterns below c. */
  lemma {:induction false} BelowAt(dirs: seq<string>, mask: nat, n: nat, c: nat) returns (higher: seq<Target>)
    requires c < n
    ensures Below(dirs, mask, n) == higher + (if Allowed(c, mask) then Targets(dirs, c) else []) + Below(dirs, mask, c)
    ensures forall t :: t in higher ==> t.mask > c
  {
    if n == c + 1 {
      higher := [];
    } else {
      var rest := BelowAt(dirs, mask, n - 1, c);
      var first := if Allowed(n - 1, mask) then Targets(dirs, n - 1) else [];
      higher := first + rest;
      Regroup(first, rest, if Allowed(c, mask) then Targets(dirs, c) else []);
      Regroup(first, rest + (if Allowed(c, mask) then Targets(dirs, c) else []), Below(dirs, mask, c));
    }
  }
}
