/**
 * The state rules of the Christmas wishlist component: the collection of
 * wishlists, the four updaters the UI dispatches, the fallback rule of the
 * load effect, the double write of the save effect, the replace rule of
 * import, the export link and the share message.
 *
 * JSON and URI encoding are library code: they enter as function values.
 */
module Wishlist {
  import opened Wrappers
  import opened JsStrings

  /** Person name to that person's wishes, in the order they were added. */
  type Wishlists = map<string, seq<string>>

  /** The person's wishes, or none for an unknown person (`prev[person] || []`). */
  function ListOf(w: Wishlists, person: string): (r: seq<string>)
    ensures person in w ==> r == w[person]
    ensures person !in w ==> r == []
  {
    if person in w then w[person] else []
  }

  // ---------------------------------------------------------------------------
  // The four updaters
  // ---------------------------------------------------------------------------

  /** The guard of addPerson: the name is not blank and not yet a key, compared untrimmed. */
  predicate AcceptsPerson(w: Wishlists, name: string)
    ensures AcceptsPerson(w, name) ==> name != "" && name !in w
  {
    !IsBlank(name) && name !in w
  }

  /** addPerson: a new person, stored under the name exactly as typed, with no wishes. */
  function AddPerson(w: Wishlists, name: string): (r: Wishlists)
    ensures !AcceptsPerson(w, name) ==> r == w
    ensures AcceptsPerson(w, name) ==>
      && r.Keys == w.Keys + {name} && |r| == |w| + 1
      && r[name] == []
      && forall p :: p in w ==> r[p] == w[p]
  {
    if AcceptsPerson(w, name) then w[name := []] else w
  }

  /** addItem: the trimmed text appended to the person's list; blank text changes nothing. */
  function AddItem(w: Wishlists, person: string, text: string): (r: Wishlists)
    ensures IsBlank(text) ==> r == w
    ensures !IsBlank(text) ==>
      && r.Keys == w.Keys + {person}
      && r[person] == ListOf(w, person) + [Trim(text)]
      && |r[person]| == |ListOf(w, person)| + 1
      && forall p :: p in w && p != person ==> r[p] == w[p]
  {
    if IsBlank(text) then w else w[person := ListOf(w, person) + [Trim(text)]]
  }

  /** `s.filter((_, i) => i !== index)`: every element whose position is not `index`. */
  function FilterOutIndex(s: seq<string>, index: int): (r: seq<string>)
    ensures 0 <= index < |s| ==> r == s[..index] + s[index + 1..]
    ensures !(0 <= index < |s|) ==> r == s
  {
    if s == [] then []
    else (if index == 0 then [] else [s[0]]) + FilterOutIndex(s[1..], index - 1)
  }

  /** removeItem: the wish at `index` leaves the person's list; an index outside the list changes nothing. */
  function RemoveItem(w: Wishlists, person: string, index: int): (r: Wishlists)
    requires person in w
    ensures r.Keys == w.Keys
    ensures 0 <= index < |w[person]| ==>
      r[person] == w[person][..index] + w[person][index + 1..] && |r[person]| == |w[person]| - 1
    ensures !(0 <= index < |w[person]|) ==> r == w
    ensures forall p :: p in w && p != person ==> r[p] == w[p]
  {
    w[person := FilterOutIndex(w[person], index)]
  }

  /** removePerson: the person and all their wishes are gone; nothing else changes. */
  function RemovePerson(w: Wishlists, person: string): (r: Wishlists)
    ensures person !in r
    ensures r.Keys == w.Keys - {person}
    ensures forall p :: p in r ==> r[p] == w[p]
    ensures person !in w ==> r == w
  {
    w - {person}
  }

  // ---------------------------------------------------------------------------
  // What the updaters keep and undo
  // ---------------------------------------------------------------------------

  /** A trimmed, non-empty text: what addItem stores. */
  predicate IsTidyText(s: string) {
    s != "" && Trim(s) == s
  }

  /**
   * The shape the UI's own updates keep: every name is non-blank (though not
   * necessarily trimmed) and every wish is trimmed and non-empty. Load and import
   * do not check it.
   */
  predicate Tidy(w: Wishlists) {
    forall p :: p in w ==> !IsBlank(p) && TidyList(w[p])
  }

  predicate TidyList(s: seq<string>) {
    forall i :: 0 <= i < |s| ==> IsTidyText(s[i])
  }

  lemma AddPersonKeepsTidy(w: Wishlists, name: string)
    requires Tidy(w)
    ensures Tidy(AddPerson(w, name))
  {
  }

  lemma AppendKeepsTidy(s: seq<string>, x: string)
    requires TidyList(s) && IsTidyText(x)
    ensures TidyList(s + [x])
  {
    var r := s + [x];
    forall i | 0 <= i < |r| ensures IsTidyText(r[i]) {
      if i < |s| { assert r[i] == s[i]; }
    }
  }

  lemma AddItemKeepsTidy(w: Wishlists, person: string, text: string)
    requires Tidy(w)
    requires person in w || !IsBlank(person)
    ensures Tidy(AddItem(w, person, text))
  {
    if !IsBlank(text) {
      TrimIdempotent(text);
      AppendKeepsTidy(ListOf(w, person), Trim(text));
      var r := AddItem(w, person, text);
      forall p | p in r ensures !IsBlank(p) && TidyList(r[p]) {
        if p != person { assert p in w; }
      }
    }
  }

  lemma FilterOutIndexKeepsTidy(s: seq<string>, index: int)
    requires TidyList(s)
    ensures TidyList(FilterOutIndex(s, index))
  {
    var r := FilterOutIndex(s, index);
    if 0 <= index < |s| {
      var front, back := s[..index], s[index + 1..];
      assert r == front + back;
      forall i | 0 <= i < |r| ensures IsTidyText(r[i]) {
        if i < index { assert r[i] == front[i]; } else { assert r[i] == back[i - index]; }
      }
    }
  }

  lemma RemoveItemKeepsTidy(w: Wishlists, person: string, index: int)
    requires Tidy(w) && person in w
    ensures Tidy(RemoveItem(w, person, index))
  {
    FilterOutIndexKeepsTidy(w[person], index);
    var r := RemoveItem(w, person, index);
    forall p | p in r ensures !IsBlank(p) && TidyList(r[p]) {
      assert p in w;
    }
  }

  lemma RemovePersonKeepsTidy(w: Wishlists, person: string)
    requires Tidy(w)
    ensures Tidy(RemovePerson(w, person))
  {
  }

  /** Removing the person just added restores the collection. */
  lemma RemovePersonUndoesAddPerson(w: Wishlists, name: string)
    requires AcceptsPerson(w, name)
    ensures RemovePerson(AddPerson(w, name), name) == w
  {
    assert RemovePerson(AddPerson(w, name), name).Keys == w.Keys;
  }

  /** Removing the wish just appended, at its position, restores the collection. */
  lemma RemoveItemUndoesAddItem(w: Wishlists, person: string, text: string)
    requires person in w && !IsBlank(text)
    ensures RemoveItem(AddItem(w, person, text), person, |w[person]|) == w
  {
    var a := AddItem(w, person, text);
    var n := |w[person]|;
    var s := a[person];
    assert s == w[person] + [Trim(text)];
    assert s[..n] == w[person] && s[n + 1..] == [];
    var r := RemoveItem(a, person, n);
    assert r[person] == w[person];
    assert r.Keys == w.Keys;
    assert forall q :: q in w ==> r[q] == w[q];
  }

  /** A second addPerson with the same name changes nothing: one entry per name. */
  lemma AddPersonTwice(w: Wishlists, name: string)
    ensures AddPerson(AddPerson(w, name), name) == AddPerson(w, name)
  {
  }

  /** The duplicate check compares names untrimmed, so "Mara" and "Mara " are two people. */
  lemma UntrimmedNamesAreDistinct()
    ensures AddPerson(AddPerson(map[], "Mara"), "Mara ").Keys == {"Mara", "Mara "}
  {
    VisibleStartIsNotBlank("Mara");
    VisibleStartIsNotBlank("Mara ");
    assert "Mara" != "Mara ";
  }

  lemma VisibleStartIsNotBlank(s: string)
    requires |s| > 0 && !IsWhitespace(s[0])
    ensures !IsBlank(s)
  {
    BlankIsAllWhitespace(s);
  }

  /** A session: add Mara, then a bicycle to her list ... */
  lemma ExampleSessionAdd()
    ensures AddItem(AddPerson(map[], "Mara"), "Mara", "Bicycle") == map["Mara" := ["Bicycle"]]
  {
    VisibleStartIsNotBlank("Mara");
    var w1 := AddPerson(map[], "Mara");
    assert w1 == map["Mara" := []];
    assert !IsWhitespace("Bicycle"[0]) && !IsWhitespace("Bicycle"[6]);
    TrimOfTrimmed("Bicycle");
    assert ListOf(w1, "Mara") + [Trim("Bicycle")] == ["Bicycle"];
  }

  /** ... and remove the bicycle again. */
  lemma ExampleSessionRemove()
    ensures RemoveItem(map["Mara" := ["Bicycle"]], "Mara", 0) == map["Mara" := []]
  {
    var w2: Wishlists := map["Mara" := ["Bicycle"]];
    assert RemoveItem(w2, "Mara", 0)["Mara"] == [];
  }

  // ---------------------------------------------------------------------------
  // Persistence: two storage slots, load fallback, double write
  // ---------------------------------------------------------------------------

  const PrimaryKey: string := "christmas-wishlists-2024"
  const BackupKey: string := "christmas-wishlists-2024-backup"

  /** The browser's key-value storage. */
  type Storage = map<string, string>

  /** `localStorage.getItem(key)`: null for a key that holds nothing. */
  function GetItem(st: Storage, key: string): (r: Option<string>)
    ensures r.Some? <==> key in st
    ensures r.Some? ==> r.value == st[key]
  {
    if key in st then Some(st[key]) else None
  }

  /** JavaScript's truth test on a getItem result: neither null nor the empty string. */
  predicate Truthy(o: Option<string>)
    ensures Truthy(o) ==> o.Some? && |o.value| > 0
    ensures o.None? || o == Some("") ==> !Truthy(o)
  {
    o.Some? && o.value != ""
  }

  /** JSON as the component uses it: a parse that may throw, a compact and a pretty-printed stringify. */
  datatype Json = Json(
    parse: string -> Option<Wishlists>,
    stringify: Wishlists -> string,
    stringifyPretty: Wishlists -> string)

  /**
   * The load effect: the snapshot it hands to setWishlists, or None when it sets
   * nothing (the state then stays as it was, the empty collection at start).
   */
  function LoadedSnapshot(st: Storage, parse: string -> Option<Wishlists>): (r: Option<Wishlists>)
    ensures var p := GetItem(st, PrimaryKey);
      Truthy(p) && parse(p.value).Some? ==> r == parse(p.value)
    ensures var p, b := GetItem(st, PrimaryKey), GetItem(st, BackupKey);
      Truthy(p) && parse(p.value).None? && Truthy(b) ==> r == parse(b.value)
    ensures var p, b := GetItem(st, PrimaryKey), GetItem(st, BackupKey);
      !Truthy(p) || (parse(p.value).None? && !Truthy(b)) ==> r == None
    ensures r.Some? ==> r == parse(st[PrimaryKey]) || r == parse(st[BackupKey])
  {
    var primary, backup := GetItem(st, PrimaryKey), GetItem(st, BackupKey);
    if !Truthy(primary) then None
    else match parse(primary.value)
      case Some(v) => Some(v)
      case None => if Truthy(backup) then parse(backup.value) else None
  }

  /** The primary slot is consulted first; the backup only when the primary holds something that does not parse. */
  lemma BackupIgnoredWithoutPrimary(st: Storage, parse: string -> Option<Wishlists>)
    requires PrimaryKey !in st
    ensures LoadedSnapshot(st, parse) == None
  {
  }

  /**
   * The save effect: the serialized collection written to the primary and then
   * the backup slot. `fits(st, key, text)` says whether setItem succeeds (the quota);
   * a throwing write ends the try block, so a failed primary write skips the backup.
   */
  function SavedStorage(st: Storage, text: string, fits: (Storage, string, string) -> bool): (r: Storage)
    ensures !fits(st, PrimaryKey, text) ==> r == st
    ensures fits(st, PrimaryKey, text) && fits(st[PrimaryKey := text], BackupKey, text) ==>
      && r.Keys == st.Keys + {PrimaryKey, BackupKey}
      && r[PrimaryKey] == text && r[BackupKey] == text
      && forall k :: k in st && k != PrimaryKey && k != BackupKey ==> r[k] == st[k]
    ensures fits(st, PrimaryKey, text) && !fits(st[PrimaryKey := text], BackupKey, text) ==>
      r == st[PrimaryKey := text]
  {
    if !fits(st, PrimaryKey, text) then st
    else
      var st1 := st[PrimaryKey := text];
      if fits(st1, BackupKey, text) then st1[BackupKey := text] else st1
  }

  /** What the library guarantees for the wishlists type: stringify never yields "" and parse inverts it. */
  ghost predicate RoundTrips(json: Json) {
    forall w :: json.stringify(w) != "" && json.parse(json.stringify(w)) == Some(w)
  }

  /** After a save whose writes both succeed, a load gives back the saved collection. */
  lemma LoadAfterSave(st: Storage, w: Wishlists, json: Json, fits: (Storage, string, string) -> bool)
    requires RoundTrips(json)
    requires fits(st, PrimaryKey, json.stringify(w))
    requires fits(st[PrimaryKey := json.stringify(w)], BackupKey, json.stringify(w))
    ensures LoadedSnapshot(SavedStorage(st, json.stringify(w), fits), json.parse) == Some(w)
  {
    var text := json.stringify(w);
    assert json.parse(text) == Some(w);
  }

  /** When the primary write succeeds but the backup write fails, the load still finds the new collection. */
  lemma LoadAfterHalfSave(st: Storage, w: Wishlists, json: Json, fits: (Storage, string, string) -> bool)
    requires RoundTrips(json)
    requires fits(st, PrimaryKey, json.stringify(w))
    ensures LoadedSnapshot(SavedStorage(st, json.stringify(w), fits), json.parse) == Some(w)
  {
    var text := json.stringify(w);
    assert json.parse(text) == Some(w);
  }

  // ---------------------------------------------------------------------------
  // Import and export
  // ---------------------------------------------------------------------------

  /** importWishlists: a file whose text parses replaces the whole collection; otherwise nothing changes. */
  function Imported(w: Wishlists, file: Option<string>, parse: string -> Option<Wishlists>): (r: Wishlists)
    ensures file.None? ==> r == w
    ensures file.Some? && parse(file.value).None? ==> r == w
    ensures file.Some? && parse(file.value).Some? ==> r == parse(file.value).value
  {
    if file.None? then w
    else match parse(file.value)
      case Some(v) => v
      case None => w
  }

  const ExportFileName: string := "christmas-wishlist-2024.json"
  const ExportUriPrefix: string := "data:application/json;charset=utf-8,"

  /** The download link exportWishlists clicks. */
  datatype Link = Link(href: string, download: string)

  /** exportWishlists: a data URI carrying the percent-encoded pretty JSON, under the fixed file name. */
  function ExportLink(w: Wishlists, json: Json, encode: string -> string): (r: Link)
    ensures r.download == ExportFileName
    ensures |r.href| >= |ExportUriPrefix| && r.href[..|ExportUriPrefix|] == ExportUriPrefix
    ensures r.href[|ExportUriPrefix|..] == encode(json.stringifyPretty(w))
  {
    Link(ExportUriPrefix + encode(json.stringifyPretty(w)), ExportFileName)
  }

  /** The file the browser saves for a link: the data URI's payload, percent-decoded. */
  function DownloadedText(link: Link, decode: string -> string): string
    requires |link.href| >= |ExportUriPrefix| && link.href[..|ExportUriPrefix|] == ExportUriPrefix
  {
    decode(link.href[|ExportUriPrefix|..])
  }

  /** Importing an exported file reproduces the exported collection, whatever was loaded before. */
  lemma ExportImportRoundTrip(w: Wishlists, current: Wishlists, json: Json,
                              encode: string -> string, decode: string -> string)
    requires decode(encode(json.stringifyPretty(w))) == json.stringifyPretty(w)
    requires json.parse(json.stringifyPretty(w)) == Some(w)
    ensures Imported(current, Some(DownloadedText(ExportLink(w, json, encode), decode)), json.parse) == w
  {
  }

  // ---------------------------------------------------------------------------
  // Sharing a list
  // ---------------------------------------------------------------------------

  /** The items as numbered lines, counting from `first`: `${index + 1}. ${item}`. */
  function NumberedLines(items: seq<string>, first: nat): (r: seq<string>)
    ensures |r| == |items|
    ensures forall k :: 0 <= k < |items| ==> r[k] == Decimal(first + k) + ". " + items[k]
  {
    if items == [] then []
    else [Decimal(first) + ". " + items[0]] + NumberedLines(items[1..], first + 1)
  }

  /** The message: a decorated title line, a blank line, then one numbered line per wish. */
  function ShareMessage(tree: string, gift: string, person: string, title: string, items: seq<string>): (r: string)
    ensures |r| >= |tree| && r[..|tree|] == tree
    ensures items == [] ==> r == tree + " *" + person + title + "* " + gift + "\n\n"
  {
    tree + " *" + person + title + "* " + gift + "\n\n" + Join(NumberedLines(items, 1), "\n")
  }

  /** The decorations as the source file holds them: the UTF-8 bytes of the emoji read as Windows-1252. */
  const TreeAsWritten: string := "\U{F0}\U{178}\U{17D}\U{201E}"
  const GiftAsWritten: string := "\U{F0}\U{178}\U{17D}"

  /** The decorations the message is meant to carry: a Christmas tree and a wrapped present. */
  const Tree: string := "\U{1F384}"
  const Gift: string := "\U{1F381}"

  /** The share text exactly as the source builds it, garbled decorations included. */
  function ShareTextAsWritten(person: string, title: string, items: seq<string>): (r: string)
    ensures |r| >= 4 && r[..4] == TreeAsWritten
  {
    ShareMessage(TreeAsWritten, GiftAsWritten, person, title, items)
  }

  /** The text the recipient sees does not start with a tree but with the four characters "ðŸŽ„". */
  lemma ShareTextAsWrittenIsGarbled(person: string, title: string, items: seq<string>)
    ensures ShareTextAsWritten(person, title, items)[0] == '\U{F0}'
    ensures ShareTextAsWritten(person, title, items)[..|Tree|] != Tree
  {
    assert ShareTextAsWritten(person, title, items)[..4] == TreeAsWritten;
  }

  /** The share text with the intended tree and present. */
  function ShareText(person: string, title: string, items: seq<string>): (r: string)
    ensures |r| >= 1 && r[0] == '\U{1F384}'
  {
    ShareMessage(Tree, Gift, person, title, items)
  }

  lemma NumberedLinesHaveNoNewline(items: seq<string>, first: nat)
    requires forall k :: 0 <= k < |items| ==> '\n' !in items[k]
    ensures forall k :: 0 <= k < |items| ==> '\n' !in NumberedLines(items, first)[k]
  {
    var lines := NumberedLines(items, first);
    forall k | 0 <= k < |items| ensures '\n' !in lines[k] {
      var d := Decimal(first + k);
      assert lines[k] == d + ". " + items[k];
      assert forall i :: 0 <= i < |d| ==> d[i] != '\n';
    }
  }

  /** A line, a blank line, then a body: splitting at line breaks keeps the body's own lines. */
  lemma SplitTitleAndBody(head: string, body: string)
    requires '\n' !in head
    ensures Split(head + "\n\n" + body, '\n') == [head, ""] + Split(body, '\n')
  {
    assert head + "\n\n" + body == head + ['\n'] + ("" + ['\n'] + body);
    SplitAround(head, "" + ['\n'] + body, '\n');
    SplitAround("", body, '\n');
    SplitWithoutSeparator(head, '\n');
  }

  lemma NotInAppend(a: string, b: string, c: char)
    requires c !in a && c !in b
    ensures c !in a + b
  {
    forall i | 0 <= i < |a + b| ensures (a + b)[i] != c {
      if i < |a| { assert (a + b)[i] == a[i]; } else { assert (a + b)[i] == b[i - |a|]; }
    }
  }

  lemma TitleLineHasNoNewline(tree: string, gift: string, person: string, title: string)
    requires '\n' !in tree && '\n' !in gift
    requires '\n' !in person && '\n' !in title
    ensures '\n' !in tree + " *" + person + title + "* " + gift
  {
    NotInAppend(tree, " *", '\n');
    NotInAppend(tree + " *", person, '\n');
    NotInAppend(tree + " *" + person, title, '\n');
    NotInAppend(tree + " *" + person + title, "* ", '\n');
    NotInAppend(tree + " *" + person + title + "* ", gift, '\n');
  }

  /**
   * Read line by line, a share message is the title line, a blank line and then,
   * for k = 0, 1, ..., the line "k+1. item k" — provided no part holds a line break.
   */
  lemma ShareMessageLines(tree: string, gift: string, person: string, title: string, items: seq<string>)
    requires items != []
    requires '\n' !in tree && '\n' !in gift
    requires '\n' !in person && '\n' !in title
    requires forall k :: 0 <= k < |items| ==> '\n' !in items[k]
    ensures Split(ShareMessage(tree, gift, person, title, items), '\n') ==
      [tree + " *" + person + title + "* " + gift, ""] + NumberedLines(items, 1)
  {
    var head := tree + " *" + person + title + "* " + gift;
    var lines := NumberedLines(items, 1);
    NumberedLinesHaveNoNewline(items, 1);
    SplitJoin(lines, '\n');
    TitleLineHasNoNewline(tree, gift, person, title);
    SplitTitleAndBody(head, Join(lines, "\n"));
  }

  /** The text the source sends reads as the garbled title line, a blank line and the numbered wishes. */
  lemma ShareTextAsWrittenLines(person: string, title: string, items: seq<string>)
    requires items != []
    requires '\n' !in person && '\n' !in title
    requires forall k :: 0 <= k < |items| ==> '\n' !in items[k]
    ensures Split(ShareTextAsWritten(person, title, items), '\n') ==
      [TreeAsWritten + " *" + person + title + "* " + GiftAsWritten, ""] + NumberedLines(items, 1)
  {
    ShareMessageLines(TreeAsWritten, GiftAsWritten, person, title, items);
  }

  /** The corrected share text reads as the title line, a blank line and the numbered wishes. */
  lemma ShareTextLines(person: string, title: string, items: seq<string>)
    requires items != []
    requires '\n' !in person && '\n' !in title
    requires forall k :: 0 <= k < |items| ==> '\n' !in items[k]
    ensures Split(ShareText(person, title, items), '\n') ==
      [Tree + " *" + person + title + "* " + Gift, ""] + NumberedLines(items, 1)
  {
    ShareMessageLines(Tree, Gift, person, title, items);
  }

  const MobileSharePrefix: string := "whatsapp://send?text="
  const WebSharePrefix: string := "https://api.whatsapp.com/send?text="

  /** The URL shareToWhatsApp opens for a given message: none for an empty list, else the scheme's prefix and the encoded text. */
  function ShareUrlFor(text: string, items: seq<string>, isMobile: bool, encode: string -> string): (r: Option<string>)
    ensures r.None? <==> items == []
    ensures r.Some? && isMobile ==>
      |r.value| >= |MobileSharePrefix| && r.value[..|MobileSharePrefix|] == MobileSharePrefix
      && r.value[|MobileSharePrefix|..] == encode(text)
    ensures r.Some? && !isMobile ==>
      |r.value| >= |WebSharePrefix| && r.value[..|WebSharePrefix|] == WebSharePrefix
      && r.value[|WebSharePrefix|..] == encode(text)
  {
    if items == [] then None
    else
      var encoded := encode(text);
      Some(if isMobile then MobileSharePrefix + encoded else WebSharePrefix + encoded)
  }

  /** The URL the source opens: the as-written text behind the app scheme on mobile user agents, the web endpoint elsewhere. */
  function ShareUrlAsWritten(person: string, title: string, items: seq<string>, isMobile: bool,
                             encode: string -> string): (r: Option<string>)
    ensures r.None? <==> items == []
    ensures r.Some? ==>
      r.value == (if isMobile then MobileSharePrefix else WebSharePrefix) + encode(ShareTextAsWritten(person, title, items))
  {
    ShareUrlFor(ShareTextAsWritten(person, title, items), items, isMobile, encode)
  }

  /**
   * shareToWhatsApp with the corrected text: no URL for an empty list (the user
   * is alerted instead); otherwise the encoded text behind the app scheme on
   * mobile user agents and behind the web endpoint elsewhere.
   */
  function ShareUrl(person: string, title: string, items: seq<string>, isMobile: bool,
                    encode: string -> string): (r: Option<string>)
    ensures r.None? <==> items == []
    ensures r.Some? ==>
      r.value == (if isMobile then MobileSharePrefix else WebSharePrefix) + encode(ShareText(person, title, items))
  {
    ShareUrlFor(ShareText(person, title, items), items, isMobile, encode)
  }
}
