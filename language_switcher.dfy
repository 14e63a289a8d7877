/**
 * The locale switcher: the fixed table of offered languages and the path the
 * router is sent to when one is picked. Paths carry the locale as their first
 * segment (`/en/...`, `/de/...`).
 */
module LanguageSwitcher {
  import opened JsStrings

  datatype Language = Language(code: string, name: string)

  /** The offered languages, in button order. */
  const Languages: seq<Language> := [
    Language("en", "\U{1F1EC}\U{1F1E7} EN"),
    Language("de", "\U{1F1E9}\U{1F1EA} DE")]

  /** The pathname without its locale: `pathname.split('/').slice(2).join('/')`. */
  function CurrentPath(pathname: string): (r: string)
    ensures |Split(pathname, '/')| <= 2 ==> r == ""
    ensures |Split(pathname, '/')| == 3 ==> r == Split(pathname, '/')[2]
  {
    Join(Drop(Split(pathname, '/'), 2), "/")
  }

  /** switchLanguage: the path under the new locale, dropping the old one. */
  function SwitchLanguage(pathname: string, locale: string): (r: string)
    ensures |r| > |locale| && r[..|locale| + 1] == "/" + locale
  {
    var rest := CurrentPath(pathname);
    var r := "/" + locale + (if rest != "" then "/" + rest else "");
    assert r[..|locale| + 1] == "/" + locale;
    r
  }

  /** The path with a locale in front, as a split sees it: "", the locale, then the tail's own segments. */
  lemma SplitLocalized(locale: string, tail: string)
    requires '/' !in locale
    ensures Split("/" + locale, '/') == ["", locale]
    ensures Split("/" + locale + "/" + tail, '/') == ["", locale] + Split(tail, '/')
  {
    assert "/" + locale == "" + ['/'] + locale;
    SplitAround("", locale, '/');
    SplitWithoutSeparator("", '/');
    SplitWithoutSeparator(locale, '/');
    SplitAround("/" + locale, tail, '/');
  }

  /** The segments after the locale survive the switch: the new path splits into "", the locale, and the old tail. */
  lemma SwitchKeepsTail(pathname: string, locale: string)
    requires '/' !in locale
    ensures var tail := Drop(Split(pathname, '/'), 2);
      Split(SwitchLanguage(pathname, locale), '/') == ["", locale] + (if CurrentPath(pathname) == "" then [] else tail)
  {
    var tail := Drop(Split(pathname, '/'), 2);
    var rest := CurrentPath(pathname);
    SplitLocalized(locale, rest);
    if rest != "" {
      assert SwitchLanguage(pathname, locale) == "/" + locale + "/" + rest;
      assert forall i :: 0 <= i < |tail| ==> '/' !in tail[i];
      SplitJoin(tail, '/');
    } else {
      assert SwitchLanguage(pathname, locale) == "/" + locale;
    }
  }

  /** A path with no segment after the locale (`/en`, `/en/`, `""`) switches to the bare locale path, with no trailing slash. */
  lemma NoTailGivesBareLocale(pathname: string, locale: string)
    requires |Split(pathname, '/')| <= 2 || Drop(Split(pathname, '/'), 2) == [""]
    ensures SwitchLanguage(pathname, locale) == "/" + locale
  {
  }

  /** A switch reads only the tail, and the tail of a switched path is the tail it was given. */
  lemma CurrentPathOfSwitched(pathname: string, locale: string)
    requires '/' !in locale
    ensures CurrentPath(SwitchLanguage(pathname, locale)) == CurrentPath(pathname)
  {
    var rest := CurrentPath(pathname);
    SplitLocalized(locale, rest);
    if rest != "" {
      assert SwitchLanguage(pathname, locale) == "/" + locale + "/" + rest;
      var segs := ["", locale] + Split(rest, '/');
      assert Drop(segs, 2) == Split(rest, '/');
      JoinSplit(rest, '/');
    } else {
      assert SwitchLanguage(pathname, locale) == "/" + locale;
      assert Drop(["", locale], 2) == [];
    }
  }

  /** Switching to one locale and then another is switching straight to the second. */
  lemma SwitchTwice(pathname: string, first: string, second: string)
    requires '/' !in first
    ensures SwitchLanguage(SwitchLanguage(pathname, first), second) == SwitchLanguage(pathname, second)
  {
    CurrentPathOfSwitched(pathname, first);
  }

  /** Switching to the same locale twice is switching once. */
  lemma SwitchIdempotent(pathname: string, locale: string)
    requires '/' !in locale
    ensures SwitchLanguage(SwitchLanguage(pathname, locale), locale) == SwitchLanguage(pathname, locale)
  {
    SwitchTwice(pathname, locale, locale);
  }

  /** Exactly English and German are offered, in that order, and neither code holds a slash. */
  lemma OfferedLanguages()
    ensures |Languages| == 2 && Languages[0].code == "en" && Languages[1].code == "de"
    ensures forall i :: 0 <= i < |Languages| ==> '/' !in Languages[i].code
  {
  }

  /** Clicking through the offered buttons in any order ends where the last click alone would. */
  lemma SwitchBetweenOffered(pathname: string, i: nat, j: nat)
    requires i < |Languages| && j < |Languages|
    ensures SwitchLanguage(SwitchLanguage(pathname, Languages[i].code), Languages[j].code)
         == SwitchLanguage(pathname, Languages[j].code)
  {
    OfferedLanguages();
    SwitchTwice(pathname, Languages[i].code, Languages[j].code);
  }

  /** `/en/a/b` switched to German is `/de/a/b`. */
  lemma SwitchExample()
    ensures SwitchLanguage("/en/a/b", "de") == "/de/a/b"
  {
    ExamplePathSegments();
    var segs := ["", "en", "a", "b"];
    assert Drop(segs, 2) == ["a", "b"];
    assert Join(["a", "b"], "/") == "a/b";
  }

  lemma ExamplePathSegments()
    ensures Split("/en/a/b", '/') == ["", "en", "a", "b"]
  {
    var tail := "a/b";
    assert tail == "a" + ['/'] + "b";
    SplitAround("a", "b", '/');
    SplitWithoutSeparator("a", '/');
    SplitWithoutSeparator("b", '/');
    assert "/en/a/b" == "/" + "en" + "/" + tail;
    SplitLocalized("en", tail);
  }
}
