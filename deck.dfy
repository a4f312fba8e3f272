/**
 * The slide deck: the rows read from `translations.csv`, their grouping into
 * one slide per slide id (the body of `loadTranslations`), the built-in
 * fallback deck, and the set of languages the deck offers.
 */
module Deck {
  import opened Wrappers
  import JsNumbers

  /** One parsed CSV record. A column that is absent or empty is "". */
  datatype Row = Row(slideId: string, language: string, title: string, content: string, duration: string)

  /** One slide: per-language title and content, and its duration in seconds. */
  datatype Slide = Slide(id: string, title: map<string, string>, content: map<string, string>, duration: int)

  /** What reading and parsing `translations.csv` gave: no file, a read or
      parse error, or the records. */
  datatype CsvSource = Missing | Unreadable | Parsed(rows: seq<Row>)

  /** The names every plain JavaScript object inherits from `Object.prototype`;
      looking one of them up in the `{}` used as the slide map finds a
      function (or the prototype itself), never `undefined`. */
  const InheritedNames: set<string> := {
    "constructor", "hasOwnProperty", "isPrototypeOf", "propertyIsEnumerable",
    "toLocaleString", "toString", "valueOf", "__proto__",
    "__defineGetter__", "__defineSetter__", "__lookupGetter__", "__lookupSetter__"
  }

  /** `row.slideId || '1'`. */
  function SlideIdOf(row: Row): string {
    if row.slideId == "" then "1" else row.slideId
  }

  /** The row carries a language (`if (lang)`). */
  predicate HasLanguage(row: Row) {
    row.language != ""
  }

  /** The row makes its language an own key of `title` and `content`; storing
      a string under `__proto__` is silently ignored by JavaScript. */
  predicate AddsEntry(row: Row) {
    HasLanguage(row) && row.language != "__proto__"
  }

  /** The row makes the grouping throw: its id names an inherited member, so
      no slide is created for it, and writing `title[lang]` on that member
      fails with a TypeError. */
  predicate Throws(row: Row) {
    SlideIdOf(row) in InheritedNames && HasLanguage(row)
  }

  /** The row sets `title[lang]` and `content[lang]` of slide `id`. */
  predicate Sets(row: Row, id: string, lang: string) {
    SlideIdOf(row) == id && AddsEntry(row) && row.language == lang
  }

  /** The body of the `forEach` over the records, on the slide map so far;
      `None` when it throws. */
  function AddRow(m: map<string, Slide>, row: Row): (r: Option<map<string, Slide>>)
    ensures r.None? <==> Throws(row)
    ensures r.Some? ==> forall k :: k in r.value <==> k in m || (k == SlideIdOf(row) && k !in InheritedNames)
    ensures r.Some? && (forall k :: k in m ==> m[k].id == k) ==> forall k :: k in r.value ==> r.value[k].id == k
  {
    var id := SlideIdOf(row);
    if id in InheritedNames then
      if HasLanguage(row) then None else Some(m)
    else
      var s := if id in m then m[id] else Slide(id, map[], map[], JsNumbers.ParseIntOrZero(row.duration));
      var s' :=
        if AddsEntry(row) then s.(title := s.title[row.language := row.title], content := s.content[row.language := row.content])
        else s;
      Some(m[id := s'])
  }

  /** The slide map after the `forEach` over `rows`, or `None` when it threw. */
  function Grouped(rows: seq<Row>): (r: Option<map<string, Slide>>)
    ensures r.Some? ==> forall k :: k in r.value ==> r.value[k].id == k
  {
    if rows == [] then Some(map[])
    else
      match Grouped(rows[..|rows| - 1])
      case None => None
      case Some(m) => AddRow(m, rows[|rows| - 1])
  }

  /** `deck` lists the slides of the map `m`, each exactly once, in some order. */
  ghost predicate Lists(deck: seq<Slide>, m: map<string, Slide>) {
    && (forall i :: 0 <= i < |deck| ==> deck[i].id in m && m[deck[i].id] == deck[i])
    && (forall k :: k in m ==> exists i :: 0 <= i < |deck| && deck[i].id == k)
    && (forall i, j :: 0 <= i < j < |deck| ==> deck[i].id != deck[j].id)
  }

  /** What `loadTranslations` returns for a given CSV source. */
  ghost predicate LoadedFrom(deck: seq<Slide>, src: CsvSource) {
    match src
    case Missing => deck == DefaultSlides()
    case Unreadable => deck == DefaultSlides()
    case Parsed(rows) =>
      match Grouped(rows)
      case None => deck == DefaultSlides()
      case Some(m) => Lists(deck, m)
  }

  /** `createDefaultSlides()`: the deck served when there is no usable CSV. */
  function DefaultSlides(): (d: seq<Slide>)
    ensures |d| == 2 && d[0].id == "1" && d[1].id == "2"
    ensures forall i :: 0 <= i < |d| ==>
      d[i].title.Keys == {"en", "pl", "de"} && d[i].content.Keys == d[i].title.Keys && d[i].duration > 0
  {
    [
      Slide("1",
        map["en" := "Welcome", "pl" := "Witamy", "de" := "Willkommen"],
        map["en" := "Welcome to our presentation", "pl" := "Witamy na naszej prezentacji",
            "de" := "Willkommen zu unserer Pr\U{00E4}sentation"],
        30),
      Slide("2",
        map["en" := "Slide 2", "pl" := "Slajd 2", "de" := "Folie 2"],
        map["en" := "This is slide number two", "pl" := "To jest slajd numer dwa",
            "de" := "Dies ist Folie Nummer zwei"],
        45)
    ]
  }

  lemma GroupedExtend(rows: seq<Row>, i: int, m: map<string, Slide>)
    requires 0 <= i < |rows| && Grouped(rows[..i]) == Some(m)
    ensures Grouped(rows[..i + 1]) == AddRow(m, rows[i])
  {
    assert rows[..i + 1][..i] == rows[..i];
  }

  /** The grouping throws exactly when some row has an inherited id and a language. */
  lemma {:induction false} GroupedFails(rows: seq<Row>)
    ensures Grouped(rows).None? <==> exists i :: 0 <= i < |rows| && Throws(rows[i])
  {
    if rows != [] {
      var p := rows[..|rows| - 1];
      GroupedFails(p);
      ThrowsSplit(rows, p);
    }
  }

  /** Some row of `rows` throws exactly when its last row or an earlier one does. */
  lemma ThrowsSplit(rows: seq<Row>, p: seq<Row>)
    requires rows != [] && p == rows[..|rows| - 1]
    ensures (exists i :: 0 <= i < |rows| && Throws(rows[i])) <==>
      (Throws(rows[|rows| - 1]) || exists i :: 0 <= i < |p| && Throws(p[i]))
  {
    assert forall j :: 0 <= j < |p| ==> p[j] == rows[j];
  }


  /** One slide per distinct id (a missing id counting as "1"), stored under
      its own id; ids naming inherited members never become slides. */
  lemma {:induction false} GroupedKeys(rows: seq<Row>, m: map<string, Slide>)
    requires Grouped(rows) == Some(m)
    ensures forall k :: k in m ==> m[k].id == k
    ensures forall k :: k in m <==> k !in InheritedNames && exists i :: 0 <= i < |rows| && SlideIdOf(rows[i]) == k
  {
    if rows != [] {
      var n := |rows| - 1;
      var p := rows[..n];
      var m0 := Grouped(p).value;
      assert AddRow(m0, rows[n]) == Some(m);
      GroupedKeys(p, m0);
      forall k | k !in InheritedNames {
        IdsSplit(rows, p, k);
      }
    }
  }

  /** Some row of `rows` has id `k` exactly when its last row or an earlier one has. */
  lemma IdsSplit(rows: seq<Row>, p: seq<Row>, k: string)
    requires rows != [] && p == rows[..|rows| - 1]
    ensures (exists i :: 0 <= i < |rows| && SlideIdOf(rows[i]) == k) <==>
      (SlideIdOf(rows[|rows| - 1]) == k || exists i :: 0 <= i < |p| && SlideIdOf(p[i]) == k)
  {
    assert forall j :: 0 <= j < |p| ==> p[j] == rows[j];
  }


  /** What one row does to the duration of slide `k`. */
  lemma AddRowDuration(m0: map<string, Slide>, row: Row, m: map<string, Slide>, k: string)
    requires AddRow(m0, row) == Some(m) && k in m
    ensures k in m0 ==> m[k].duration == m0[k].duration
    ensures k !in m0 ==> SlideIdOf(row) == k && m[k].duration == JsNumbers.ParseIntOrZero(row.duration)
  {
  }

  /** A slide's duration is read from the first row with its id; later rows
      never change it. */
  lemma {:induction false} GroupedDuration(rows: seq<Row>, m: map<string, Slide>, k: string)
    requires Grouped(rows) == Some(m) && k in m
    ensures exists i ::
      && 0 <= i < |rows| && SlideIdOf(rows[i]) == k
      && (forall j :: 0 <= j < i ==> SlideIdOf(rows[j]) != k)
      && m[k].duration == JsNumbers.ParseIntOrZero(rows[i].duration)
  {
    var n := |rows| - 1;
    var p := rows[..n];
    var m0 := Grouped(p).value;
    assert AddRow(m0, rows[n]) == Some(m);
    AddRowDuration(m0, rows[n], m, k);
    assert forall j :: 0 <= j < n ==> p[j] == rows[j];
    if k in m0 {
      GroupedDuration(p, m0, k);
    } else {
      GroupedKeys(rows, m);
      GroupedKeys(p, m0);
      assert SlideIdOf(rows[n]) == k;
    }
  }

  /** What one row does to the texts of slide `k`. */
  lemma AddRowTexts(m0: map<string, Slide>, row: Row, m: map<string, Slide>, k: string)
    requires AddRow(m0, row) == Some(m) && k in m
    ensures k !in m0 ==> SlideIdOf(row) == k
    ensures var title0 := if k in m0 then m0[k].title else map[];
      m[k].title == if SlideIdOf(row) == k && AddsEntry(row) then title0[row.language := row.title] else title0
    ensures var content0 := if k in m0 then m0[k].content else map[];
      m[k].content == if SlideIdOf(row) == k && AddsEntry(row) then content0[row.language := row.content] else content0
  {
  }

  /** A slide has a title and a content in exactly the languages of the rows
      with its id that name a language. */
  lemma {:induction false} GroupedLanguages(rows: seq<Row>, m: map<string, Slide>, k: string, lang: string)
    requires Grouped(rows) == Some(m) && k in m
    ensures lang in m[k].title <==> lang in m[k].content
    ensures lang in m[k].title <==> exists i :: 0 <= i < |rows| && Sets(rows[i], k, lang)
  {
    var n := |rows| - 1;
    var p := rows[..n];
    var last := rows[n];
    var m0 := Grouped(p).value;
    assert AddRow(m0, last) == Some(m);
    AddRowTexts(m0, last, m, k);
    SetsSplit(rows, p, k, lang);
    if !Sets(last, k, lang) {
      if k in m0 {
        GroupedLanguages(p, m0, k, lang);
      } else {
        GroupedKeys(rows, m);
        GroupedKeys(p, m0);
      }
    }
  }

  /** Some row of `rows` sets `lang` on slide `k` exactly when the last row
      does or some row before it does. */
  lemma SetsSplit(rows: seq<Row>, p: seq<Row>, k: string, lang: string)
    requires rows != [] && p == rows[..|rows| - 1]
    ensures (exists i :: 0 <= i < |rows| && Sets(rows[i], k, lang)) <==>
      (Sets(rows[|rows| - 1], k, lang) || exists i :: 0 <= i < |p| && Sets(p[i], k, lang))
  {
    assert forall j :: 0 <= j < |p| ==> p[j] == rows[j];
  }

  /** Row `i` sets `lang` on slide `k` and no later row does. */
  ghost predicate LatestSetter(rows: seq<Row>, k: string, lang: string, i: int) {
    && 0 <= i < |rows| && Sets(rows[i], k, lang)
    && forall j :: i < j < |rows| ==> !Sets(rows[j], k, lang)
  }

  /** A row that is the latest to set a text stays so when a row that does
      not set it is appended. */
  lemma LatestSetterExtend(rows: seq<Row>, k: string, lang: string, i: int)
    requires rows != [] && !Sets(rows[|rows| - 1], k, lang)
    requires LatestSetter(rows[..|rows| - 1], k, lang, i)
    ensures LatestSetter(rows, k, lang, i) && rows[i] == rows[..|rows| - 1][i]
  {
    var p := rows[..|rows| - 1];
    assert forall j :: 0 <= j < |p| ==> p[j] == rows[j];
  }

  /** Each title and content of a slide holds the text of the last row with
      the slide's id and that language. */
  lemma {:induction false} GroupedLatestText(rows: seq<Row>, m: map<string, Slide>, k: string, lang: string)
    requires Grouped(rows) == Some(m) && k in m && lang in m[k].title
    ensures lang in m[k].content
    ensures exists i ::
      LatestSetter(rows, k, lang, i) && m[k].title[lang] == rows[i].title && m[k].content[lang] == rows[i].content
  {
    var n := |rows| - 1;
    var p := rows[..n];
    var last := rows[n];
    var m0 := Grouped(p).value;
    assert AddRow(m0, last) == Some(m);
    AddRowTexts(m0, last, m, k);
    if Sets(last, k, lang) {
      assert LatestSetter(rows, k, lang, n);
    } else {
      assert k in m0;
      GroupedLatestText(p, m0, k, lang);
      var i :| LatestSetter(p, k, lang, i)
        && m0[k].title[lang] == p[i].title && m0[k].content[lang] == p[i].content;
      LatestSetterExtend(rows, k, lang, i);
    }
  }

  /** `loadTranslations()` once the CSV has been read and parsed: the records
      are grouped into a slide map, and the map's slides become the deck; a
      missing or unreadable file, or a row that makes the grouping throw,
      gives the default deck instead. The body lists the slides in the order
      their ids first appear, which is not always JavaScript's order
      (`Object.values` puts integer-like ids first, ascending); the contract
      leaves the order open. */
  method LoadTranslations(src: CsvSource) returns (deck: seq<Slide>)
    ensures LoadedFrom(deck, src)
  {
    if !src.Parsed? {
      return DefaultSlides();
    }
    var rows := src.rows;
    var slideMap: map<string, Slide> := map[];
    var order: seq<string> := [];
    var i := 0;
    assert rows[..0] == [];
    while i < |rows|
      invariant 0 <= i <= |rows|
      invariant Grouped(rows[..i]) == Some(slideMap)
      invariant forall k :: k in slideMap ==> slideMap[k].id == k
      invariant forall k :: k in slideMap <==> k in order
      invariant forall a, b :: 0 <= a < b < |order| ==> order[a] != order[b]
    {
      GroupedExtend(rows, i, slideMap);
      var ok;
      ok, slideMap, order := AddRecord(slideMap, order, rows[i]);
      if !ok {
        // the catch falls back to the default deck
        GroupedFails(rows[..i + 1]);
        GroupedFails(rows);
        return DefaultSlides();
      }
      i := i + 1;
    }
    assert rows[..|rows|] == rows;
    deck := seq(|order|, j requires 0 <= j < |order| => slideMap[order[j]]);
    InOrderLists(slideMap, order, deck);
  }

  /** The callback of the `forEach` over the records: creates the slide on
      the first row of its id and stores the row's texts under its language.
      `ok` is false when the callback throws; `order` records the ids in the
      order they were created. */
  method AddRecord(slideMap: map<string, Slide>, order: seq<string>, row: Row)
    returns (ok: bool, slideMap': map<string, Slide>, order': seq<string>)
    requires forall k :: k in slideMap ==> slideMap[k].id == k
    requires forall k :: k in slideMap <==> k in order
    requires forall a, b :: 0 <= a < b < |order| ==> order[a] != order[b]
    ensures ok == !Throws(row)
    ensures ok ==> AddRow(slideMap, row) == Some(slideMap')
    ensures forall k :: k in slideMap' ==> slideMap'[k].id == k
    ensures forall k :: k in slideMap' <==> k in order'
    ensures forall a, b :: 0 <= a < b < |order'| ==> order'[a] != order'[b]
  {
    ok, slideMap', order' := true, slideMap, order;
    var slideId := SlideIdOf(row);
    if slideId in InheritedNames {
      // an inherited member is found, so no slide is created for the id;
      // writing `title[lang]` on it throws a TypeError
      ok := !HasLanguage(row);
      return;
    }
    // the slide object the callback works on: the existing one, or a new
    // one with the row's duration when the id is seen for the first time
    var slide := if slideId in slideMap then slideMap[slideId]
                 else Slide(slideId, map[], map[], JsNumbers.ParseIntOrZero(row.duration));
    if slideId !in slideMap {
      order' := order + [slideId];
    }
    if AddsEntry(row) {
      slide := slide.(title := slide.title[row.language := row.title],
                      content := slide.content[row.language := row.content]);
    }
    slideMap' := slideMap[slideId := slide];
  }

  lemma InOrderLists(m: map<string, Slide>, order: seq<string>, deck: seq<Slide>)
    requires forall k :: k in m ==> m[k].id == k
    requires forall k :: k in m <==> k in order
    requires forall a, b :: 0 <= a < b < |order| ==> order[a] != order[b]
    requires |deck| == |order| && forall j :: 0 <= j < |order| ==> deck[j] == m[order[j]]
    ensures Lists(deck, m)
  {
    forall k | k in m ensures exists j :: 0 <= j < |deck| && deck[j].id == k {
      var j :| 0 <= j < |order| && order[j] == k;
      assert deck[j].id == k;
    }
  }

  /** `getAvailableLanguages()`: every language some slide has a title in,
      each exactly once. */
  method AvailableLanguages(slides: seq<Slide>) returns (langs: seq<string>)
    ensures forall a, b :: 0 <= a < b < |langs| ==> langs[a] != langs[b]
    ensures forall lang :: lang in langs <==> exists i :: 0 <= i < |slides| && lang in slides[i].title
  {
    langs := [];
    var i := 0;
    while i < |slides|
      invariant 0 <= i <= |slides|
      invariant forall a, b :: 0 <= a < b < |langs| ==> langs[a] != langs[b]
      invariant forall lang :: lang in langs <==> exists j :: 0 <= j < i && lang in slides[j].title
    {
      var keys := slides[i].title.Keys;
      while keys != {}
        invariant keys <= slides[i].title.Keys
        invariant forall a, b :: 0 <= a < b < |langs| ==> langs[a] != langs[b]
        invariant forall lang :: lang in langs <==>
          (exists j :: 0 <= j < i && lang in slides[j].title) || (lang in slides[i].title && lang !in keys)
      {
        var lang :| lang in keys;
        if lang !in langs {
          langs := langs + [lang];
        }
        keys := keys - {lang};
      }
      i := i + 1;
    }
  }
}
