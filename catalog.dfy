/** The feed catalog (NEWS_FEEDS) and its walk into one fetch task per feed.
    Both deployment variants carry the same catalog shape and the same walk:
    every category maps source names to feed URLs, except the one category
    'Indian News', which maps language names to such a mapping. Python
    dictionaries keep insertion order, so each level is an ordered sequence. */
module Catalog {
  import opened Common

  /** The one category whose value has a language level. */
  const IndianNews: string := "Indian News"

  datatype Source = Source(name: string, url: string)
  datatype Language = Language(name: string, sources: seq<Source>)
  datatype Group = Sources(sources: seq<Source>) | Languages(languages: seq<Language>)
  datatype Category = Category(name: string, group: Group)

  /** One fetch task: (name, url, category, sub_category). */
  datatype Descriptor = Descriptor(name: string, url: string, category: string, subCategory: Option<string>)

  /** The walk decides the shape by the category's name; the catalog is
      written so that exactly 'Indian News' has the language level. */
  predicate WellFormed(catalog: seq<Category>)
  {
    forall c :: c in catalog ==> HasExpectedShape(c)
  }

  predicate HasExpectedShape(c: Category)
  {
    c.name == IndianNews <==> c.group.Languages?
  }

  function SourceDescriptors(category: string, sub: Option<string>, sources: seq<Source>): seq<Descriptor>
  {
    seq(|sources|, i requires 0 <= i < |sources| => Descriptor(sources[i].name, sources[i].url, category, sub))
  }

  function LanguageDescriptors(category: string, languages: seq<Language>): seq<Descriptor>
    decreases |languages|
  {
    if languages == [] then []
    else
      var lang := languages[|languages| - 1];
      LanguageDescriptors(category, languages[..|languages| - 1])
        + SourceDescriptors(category, Some(lang.name), lang.sources)
  }

  /** The descriptors of one category, by the shape of its value; in a
      well-formed catalog the shape is the one its name selects. */
  function CategoryDescriptors(c: Category): seq<Descriptor>
  {
    match c.group
    case Languages(languages) => LanguageDescriptors(c.name, languages)
    case Sources(sources) => SourceDescriptors(c.name, None, sources)
  }

  /** The descriptors of the whole catalog, category by category. */
  function Flatten(catalog: seq<Category>): seq<Descriptor>
    decreases |catalog|
  {
    if catalog == [] then []
    else Flatten(catalog[..|catalog| - 1]) + CategoryDescriptors(catalog[|catalog| - 1])
  }

  /** The walk that submits one task per leaf: nested loops appending to
      `tasks`, choosing the nested shape by the category's name. */
  method CollectDescriptors(catalog: seq<Category>) returns (tasks: seq<Descriptor>)
    requires WellFormed(catalog)
    ensures tasks == Flatten(catalog)
  {
    tasks := [];
    for i := 0 to |catalog|
      invariant tasks == Flatten(catalog[..i])
    {
      var c := catalog[i];
      assert HasExpectedShape(c);
      if c.name == IndianNews {
        var languages := c.group.languages;
        ghost var before := tasks;
        for j := 0 to |languages|
          invariant tasks == before + LanguageDescriptors(c.name, languages[..j])
        {
          var lang := languages[j];
          tasks := AppendSources(tasks, c.name, Some(lang.name), lang.sources);
          assert languages[..j + 1] == languages[..j] + [lang];
          LanguageDescriptorsSnoc(c.name, languages[..j], lang);
          AppendAssoc(before, LanguageDescriptors(c.name, languages[..j]),
                      SourceDescriptors(c.name, Some(lang.name), lang.sources));
        }
        assert languages[..|languages|] == languages;
      } else {
        tasks := AppendSources(tasks, c.name, None, c.group.sources);
      }
      assert catalog[..i + 1] == catalog[..i] + [c];
      FlattenSnoc(catalog[..i], c);
    }
    assert catalog[..|catalog|] == catalog;
  }

  /** The innermost loop: one task per source, in order. */
  method AppendSources(tasks: seq<Descriptor>, category: string, sub: Option<string>, sources: seq<Source>)
    returns (r: seq<Descriptor>)
    ensures r == tasks + SourceDescriptors(category, sub, sources)
  {
    r := tasks;
    for k := 0 to |sources|
      invariant r == tasks + SourceDescriptors(category, sub, sources[..k])
    {
      r := r + [Descriptor(sources[k].name, sources[k].url, category, sub)];
    }
    assert sources[..|sources|] == sources;
  }

  lemma {:induction false} LanguageDescriptorsSnoc(category: string, languages: seq<Language>, lang: Language)
    ensures LanguageDescriptors(category, languages + [lang])
            == LanguageDescriptors(category, languages) + SourceDescriptors(category, Some(lang.name), lang.sources)
  {
    assert (languages + [lang])[..|languages|] == languages;
  }

  /** The walk of a catalog with one more category appends that category's
      descriptors. */
  lemma {:induction false} FlattenSnoc(catalog: seq<Category>, c: Category)
    ensures Flatten(catalog + [c]) == Flatten(catalog) + CategoryDescriptors(c)
  {
    assert (catalog + [c])[..|catalog|] == catalog;
  }

  /** Walking two catalogs one after the other gives the descriptors of the
      first followed by those of the second: the walk keeps catalog order. */
  lemma {:induction false} FlattenAppend(c1: seq<Category>, c2: seq<Category>)
    ensures Flatten(c1 + c2) == Flatten(c1) + Flatten(c2)
    decreases |c2|
  {
    if c2 == [] {
      assert c1 + c2 == c1;
    } else {
      var init := c2[..|c2| - 1];
      var last := c2[|c2| - 1];
      assert c2 == init + [last];
      assert c1 + c2 == (c1 + init) + [last];
      FlattenAppend(c1, init);
      FlattenSnoc(c1 + init, last);
      FlattenSnoc(init, last);
      AppendAssoc(Flatten(c1), Flatten(init), CategoryDescriptors(last));
    }
  }

  /** The leaves of one category: a source directly under a flat category,
      or a source under one of the languages of 'Indian News'. */
  predicate IsLeafOf(c: Category, d: Descriptor)
  {
    d.category == c.name &&
    match c.group
    case Sources(sources) =>
      d.subCategory == None && Source(d.name, d.url) in sources
    case Languages(languages) =>
      d.subCategory.Some? &&
      exists j :: 0 <= j < |languages| && languages[j].name == d.subCategory.value
                  && Source(d.name, d.url) in languages[j].sources
  }

  lemma {:induction false} SourceDescriptorsLeaves(category: string, sub: Option<string>, sources: seq<Source>,
                                                   d: Descriptor)
    ensures d in SourceDescriptors(category, sub, sources) <==>
            d.category == category && d.subCategory == sub && Source(d.name, d.url) in sources
  {
    var ds := SourceDescriptors(category, sub, sources);
    if d in ds {
      var i :| 0 <= i < |ds| && ds[i] == d;
      assert sources[i] == Source(d.name, d.url);
    }
    if d.category == category && d.subCategory == sub && Source(d.name, d.url) in sources {
      var i :| 0 <= i < |sources| && sources[i] == Source(d.name, d.url);
      assert ds[i] == d;
    }
  }

  lemma {:induction false} LanguageDescriptorsLeaves(category: string, languages: seq<Language>, d: Descriptor)
    ensures d in LanguageDescriptors(category, languages) <==>
            d.category == category && d.subCategory.Some? &&
            exists j :: 0 <= j < |languages| && languages[j].name == d.subCategory.value
                        && Source(d.name, d.url) in languages[j].sources
    decreases |languages|
  {
    if languages != [] {
      var n := |languages| - 1;
      var init := languages[..n];
      LanguageDescriptorsLeaves(category, init, d);
      SourceDescriptorsLeaves(category, Some(languages[n].name), languages[n].sources, d);
      forall j | 0 <= j < n
        ensures init[j] == languages[j]
      {
      }
    }
  }

  /** The descriptors of one category are exactly its leaves. */
  lemma {:induction false} CategoryLeaves(c: Category, d: Descriptor)
    ensures d in CategoryDescriptors(c) <==> IsLeafOf(c, d)
  {
    match c.group
    case Sources(sources) =>
      SourceDescriptorsLeaves(c.name, None, sources, d);
    case Languages(languages) =>
      LanguageDescriptorsLeaves(c.name, languages, d);
  }

  /** Exactly the leaves of the catalog become descriptors, and a
      descriptor names the category (and the language) it was found under. */
  lemma {:induction false} FlattenLeaves(catalog: seq<Category>, d: Descriptor)
    ensures d in Flatten(catalog) <==> exists i :: 0 <= i < |catalog| && IsLeafOf(catalog[i], d)
    decreases |catalog|
  {
    if catalog != [] {
      var n := |catalog| - 1;
      var init := catalog[..n];
      var last := catalog[n];
      assert catalog == init + [last];
      FlattenSnoc(init, last);
      FlattenLeaves(init, d);
      CategoryLeaves(last, d);
      if exists i :: 0 <= i < |catalog| && IsLeafOf(catalog[i], d) {
        var i :| 0 <= i < |catalog| && IsLeafOf(catalog[i], d);
        if i < n {
          assert init[i] == catalog[i];
        }
      }
      if exists i :: 0 <= i < |init| && IsLeafOf(init[i], d) {
        var i :| 0 <= i < |init| && IsLeafOf(init[i], d);
        assert catalog[i] == init[i];
      }
    }
  }

  /** Only 'Indian News' descriptors carry a sub-category (their language);
      every other descriptor has none. */
  lemma {:induction false} FlattenSubCategory(catalog: seq<Category>, d: Descriptor)
    requires WellFormed(catalog)
    requires d in Flatten(catalog)
    ensures d.subCategory.Some? <==> d.category == IndianNews
  {
    FlattenLeaves(catalog, d);
    var i :| 0 <= i < |catalog| && IsLeafOf(catalog[i], d);
    assert HasExpectedShape(catalog[i]);
  }

  function LeafCount(catalog: seq<Category>): nat
    decreases |catalog|
  {
    if catalog == [] then 0
    else
      var c := catalog[|catalog| - 1];
      LeafCount(catalog[..|catalog| - 1]) +
        match c.group
        case Sources(sources) => |sources|
        case Languages(languages) => LanguageLeafCount(languages)
  }

  function LanguageLeafCount(languages: seq<Language>): nat
    decreases |languages|
  {
    if languages == [] then 0
    else LanguageLeafCount(languages[..|languages| - 1]) + |languages[|languages| - 1].sources|
  }

  /** One descriptor per leaf: the walk emits as many tasks as the catalog has feeds. */
  lemma {:induction false} FlattenLength(catalog: seq<Category>)
    ensures |Flatten(catalog)| == LeafCount(catalog)
    decreases |catalog|
  {
    if catalog != [] {
      var c := catalog[|catalog| - 1];
      FlattenLength(catalog[..|catalog| - 1]);
      if c.group.Languages? {
        LanguageDescriptorsLength(c.name, c.group.languages);
      }
    }
  }

  lemma {:induction false} LanguageDescriptorsLength(category: string, languages: seq<Language>)
    ensures |LanguageDescriptors(category, languages)| == LanguageLeafCount(languages)
    decreases |languages|
  {
    if languages != [] {
      LanguageDescriptorsLength(category, languages[..|languages| - 1]);
    }
  }
}
