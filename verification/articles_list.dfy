/**
 * The article list screen: the category choices, the category filter with
 * newest-first ordering, the excerpt shown on each card and the read status.
 * Strings are ordered by code points here (the app's `localeCompare` is
 * locale-dependent), and an article's creation date reaches the ordering as
 * the timestamp `time` gives it.
 */
module ArticlesList {
  import opened Wrappers
  import opened Types
  import opened Store
  import Seqs
  import Reducer

  // ---------------------------------------------------------------------------
  // String order
  // ---------------------------------------------------------------------------

  /**
   * Code-point order: a proper prefix first, otherwise the first differing
   * character decides. Above U+FFFF this differs from JavaScript's UTF-16 order.
   */
  predicate Less(a: string, b: string)
    decreases |a|
  {
    if a == [] then b != []
    else if b == [] then false
    else if a[0] != b[0] then a[0] < b[0]
    else Less(a[1..], b[1..])
  }

  lemma {:induction false} LessIrreflexive(a: string)
    ensures !Less(a, a)
    decreases |a|
  {
    if a != [] {
      LessIrreflexive(a[1..]);
    }
  }

  lemma {:induction false} LessTransitive(a: string, b: string, c: string)
    requires Less(a, b) && Less(b, c)
    ensures Less(a, c)
    decreases |a|
  {
    if a != [] && a[0] == b[0] && b[0] == c[0] {
      LessTransitive(a[1..], b[1..], c[1..]);
    }
  }

  lemma {:induction false} LessTotal(a: string, b: string)
    requires a != b
    ensures Less(a, b) || Less(b, a)
    decreases |a|
  {
    if a != [] && b != [] && a[0] == b[0] {
      assert a == [a[0]] + a[1..] && b == [b[0]] + b[1..];
      LessTotal(a[1..], b[1..]);
    }
  }

  /** Strictly ascending, hence without repeats. */
  predicate StrictlySorted(xs: seq<string>)
  {
    forall i, j :: 0 <= i < j < |xs| ==> Less(xs[i], xs[j])
  }

  /** Put `x` into an ascending list unless it is already there. */
  function Insert(xs: seq<string>, x: string): (r: seq<string>)
    requires StrictlySorted(xs)
    ensures StrictlySorted(r)
    ensures forall y :: y in r <==> y in xs || y == x
    decreases |xs|
  {
    if xs == [] then [x]
    else if x == xs[0] then xs
    else if Less(x, xs[0]) then
      assert forall j :: 0 <= j < |xs| ==> Less(x, xs[j]) by {
        forall j | 0 <= j < |xs| ensures Less(x, xs[j]) {
          if j > 0 { LessTransitive(x, xs[0], xs[j]); }
        }
      }
      [x] + xs
    else
      LessTotal(x, xs[0]);
      var rest := Insert(xs[1..], x);
      assert forall y :: y in xs[1..] ==> Less(xs[0], y) by {
        forall y | y in xs[1..] ensures Less(xs[0], y) {
          var j :| 0 <= j < |xs[1..]| && xs[1..][j] == y;
          assert xs[j + 1] == y;
        }
      }
      assert forall y :: y in xs <==> y == xs[0] || y in xs[1..] by {
        assert xs == [xs[0]] + xs[1..];
      }
      [xs[0]] + rest
  }

  // ---------------------------------------------------------------------------
  // Categories and the filter
  // ---------------------------------------------------------------------------

  /** `a.category` is truthy: present and not empty. */
  predicate HasCategory(a: Article)
  {
    a.category.Some? && a.category.value != ""
  }

  /** `categories`: each non-empty category once, ascending. */
  function Categories(articles: seq<Article>): (cats: seq<string>)
    ensures StrictlySorted(cats)
    ensures forall c :: c in cats <==> exists i :: 0 <= i < |articles| && HasCategory(articles[i]) && articles[i].category.value == c
    decreases |articles|
  {
    if articles == [] then []
    else
      var init := articles[..|articles| - 1];
      var last := articles[|articles| - 1];
      var cats := Categories(init);
      assert forall i :: 0 <= i < |init| ==> init[i] == articles[i];
      if HasCategory(last) then Insert(cats, last.category.value) else cats
  }

  /** A category appears once in the list. */
  lemma CategoriesDistinct(articles: seq<Article>)
    ensures forall i, j :: 0 <= i < j < |Categories(articles)| ==> Categories(articles)[i] != Categories(articles)[j]
  {
    var cats := Categories(articles);
    forall i, j | 0 <= i < j < |cats| ensures cats[i] != cats[j] {
      if cats[i] == cats[j] {
        LessIrreflexive(cats[i]);
      }
    }
  }

  /** `!selectedCategory || article.category === selectedCategory`. */
  function InCategory(selected: string): Article -> bool
  {
    (a: Article) => selected == "" || a.category == Some(selected)
  }

  /** Newest first: insertion by descending time, before the first older article. */
  function InsertNewest(xs: seq<Article>, a: Article, time: string -> int): (r: seq<Article>)
    requires NewestFirst(xs, time)
    ensures NewestFirst(r, time)
    ensures multiset(r) == multiset(xs) + multiset{a}
    ensures |r| == |xs| + 1 && (r[0] == a || (xs != [] && r[0] == xs[0]))
    decreases |xs|
  {
    if xs == [] || time(xs[0].createdAt) <= time(a.createdAt) then
      ConsNewest(a, xs, time);
      [a] + xs
    else
      NewestFirstTail(xs, time);
      var rest := InsertNewest(xs[1..], a, time);
      ConsBehind(xs, a, rest, time);
      [xs[0]] + rest
  }

  /** The step of `InsertNewest` that keeps the head in front of the insertion into the tail. */
  lemma ConsBehind(xs: seq<Article>, a: Article, rest: seq<Article>, time: string -> int)
    requires xs != [] && NewestFirst(xs, time) && time(xs[0].createdAt) > time(a.createdAt)
    requires NewestFirst(rest, time) && multiset(rest) == multiset(xs[1..]) + multiset{a}
    requires |rest| == |xs| && (rest[0] == a || (|xs| > 1 && rest[0] == xs[1]))
    ensures NewestFirst([xs[0]] + rest, time)
    ensures multiset([xs[0]] + rest) == multiset(xs) + multiset{a}
  {
    assert |xs| > 1 ==> time(xs[1].createdAt) <= time(xs[0].createdAt);
    ConsNewest(xs[0], rest, time);
    assert xs == [xs[0]] + xs[1..];
  }

  lemma NewestFirstTail(xs: seq<Article>, time: string -> int)
    requires xs != [] && NewestFirst(xs, time)
    ensures NewestFirst(xs[1..], time)
  {
    forall i | 0 <= i < |xs[1..]| - 1
      ensures time(xs[1..][i].createdAt) >= time(xs[1..][i + 1].createdAt)
    {
      assert xs[1..][i] == xs[i + 1] && xs[1..][i + 1] == xs[i + 2];
    }
  }

  /** An article no older than the head of a newest-first list can go in front of it. */
  lemma ConsNewest(x: Article, rest: seq<Article>, time: string -> int)
    requires NewestFirst(rest, time)
    requires rest == [] || time(rest[0].createdAt) <= time(x.createdAt)
    ensures NewestFirst([x] + rest, time)
  {
    var r := [x] + rest;
    forall i | 0 <= i < |r| - 1
      ensures time(r[i].createdAt) >= time(r[i + 1].createdAt)
    {
      if i > 0 {
        assert r[i] == rest[i - 1] && r[i + 1] == rest[i];
      }
    }
  }

  /** Adjacent articles are in non-increasing time order. */
  predicate NewestFirst(xs: seq<Article>, time: string -> int)
  {
    forall i :: 0 <= i < |xs| - 1 ==> time(xs[i].createdAt) >= time(xs[i + 1].createdAt)
  }

  function SortNewestFirst(xs: seq<Article>, time: string -> int): (r: seq<Article>)
    ensures NewestFirst(r, time)
    ensures multiset(r) == multiset(xs)
    decreases |xs|
  {
    if xs == [] then []
    else
      assert xs == [xs[0]] + xs[1..];
      InsertNewest(SortNewestFirst(xs[1..], time), xs[0], time)
  }

  /** The articles dated at time `t`. */
  function DatedAt(t: int, time: string -> int): Article -> bool
  {
    (a: Article) => time(a.createdAt) == t
  }

  /** `Filter` on a list with a known first element. */
  lemma FilterCons(x: Article, ys: seq<Article>, keep: Article -> bool)
    ensures Seqs.Filter([x] + ys, keep) == (if keep(x) then [x] else []) + Seqs.Filter(ys, keep)
  {
    assert ([x] + ys)[1..] == ys;
  }

  /**
   * Inserting goes in front of every article of the same time, so for each
   * time the articles of that time keep their order, with the new one first.
   */
  lemma {:induction false} InsertNewestStable(xs: seq<Article>, a: Article, time: string -> int, t: int)
    requires NewestFirst(xs, time)
    ensures Seqs.Filter(InsertNewest(xs, a, time), DatedAt(t, time)) == Seqs.Filter([a] + xs, DatedAt(t, time))
    decreases |xs|
  {
    var p := DatedAt(t, time);
    if !(xs == [] || time(xs[0].createdAt) <= time(a.createdAt)) {
      var rest := InsertNewest(xs[1..], a, time);
      assert InsertNewest(xs, a, time) == [xs[0]] + rest;
      InsertNewestStable(xs[1..], a, time, t);
      FilterCons(xs[0], rest, p);
      FilterCons(a, xs[1..], p);
      FilterCons(xs[0], xs[1..], p);
      assert xs == [xs[0]] + xs[1..];
      FilterCons(a, xs, p);
      assert !(p(xs[0]) && p(a));
    }
  }

  /** The sort is stable: for each time, its articles keep their input order. */
  lemma {:induction false} SortNewestFirstStable(xs: seq<Article>, time: string -> int, t: int)
    ensures Seqs.Filter(SortNewestFirst(xs, time), DatedAt(t, time)) == Seqs.Filter(xs, DatedAt(t, time))
    decreases |xs|
  {
    if xs != [] {
      var sorted := SortNewestFirst(xs[1..], time);
      SortNewestFirstStable(xs[1..], time, t);
      InsertNewestStable(sorted, xs[0], time, t);
      FilterCons(xs[0], sorted, DatedAt(t, time));
      FilterCons(xs[0], xs[1..], DatedAt(t, time));
      assert xs == [xs[0]] + xs[1..];
    }
  }

  /**
   * `filteredArticles`: the articles of the chosen category, newest first;
   * articles of the same time stay in list order, as the stable `sort` leaves them.
   */
  function FilteredArticles(articles: seq<Article>, selected: string, time: string -> int): (r: seq<Article>)
    ensures NewestFirst(r, time)
    ensures multiset(r) == multiset(Seqs.Filter(articles, InCategory(selected)))
    ensures forall t :: Seqs.Filter(r, DatedAt(t, time)) == Seqs.Filter(Seqs.Filter(articles, InCategory(selected)), DatedAt(t, time))
  {
    var kept := Seqs.Filter(articles, InCategory(selected));
    SortStable(kept, time);
    SortNewestFirst(kept, time)
  }

  lemma SortStable(xs: seq<Article>, time: string -> int)
    ensures forall t :: Seqs.Filter(SortNewestFirst(xs, time), DatedAt(t, time)) == Seqs.Filter(xs, DatedAt(t, time))
  {
    forall t ensures Seqs.Filter(SortNewestFirst(xs, time), DatedAt(t, time)) == Seqs.Filter(xs, DatedAt(t, time)) {
      SortNewestFirstStable(xs, time, t);
    }
  }

  /** `Filter` keeps every element when the test holds throughout. */
  lemma {:induction false} FilterAll(xs: seq<Article>, keep: Article -> bool)
    requires forall x :: keep(x)
    ensures Seqs.Filter(xs, keep) == xs
    decreases |xs|
  {
    if xs != [] {
      FilterAll(xs[1..], keep);
      assert xs == [xs[0]] + xs[1..];
    }
  }

  /**
   * No selection keeps every article; a selection keeps exactly the
   * articles of that category.
   */
  lemma FilterByCategory(articles: seq<Article>, selected: string, time: string -> int)
    ensures selected == "" ==> multiset(FilteredArticles(articles, selected, time)) == multiset(articles)
    ensures forall a :: a in FilteredArticles(articles, selected, time) <==>
      a in articles && (selected == "" || a.category == Some(selected))
  {
    var r := FilteredArticles(articles, selected, time);
    var kept := Seqs.Filter(articles, InCategory(selected));
    if selected == "" {
      FilterAll(articles, InCategory(selected));
    }
    forall a ensures a in r <==> a in kept {
      assert a in r <==> multiset(r)[a] > 0;
      assert a in kept <==> multiset(kept)[a] > 0;
    }
  }

  // ---------------------------------------------------------------------------
  // Excerpts
  // ---------------------------------------------------------------------------

  /** `s.replace(/<[^>]*>?/gm, '')`: every `<` up to and including the next `>` (or the end) removed. */
  function StripTags(s: string): (r: string)
    ensures '<' !in r
    ensures '<' !in s ==> r == s
    ensures |r| <= |s|
    decreases |s|
  {
    if s == [] then ""
    else if s[0] == '<' then StripTags(SkipTag(s[1..]))
    else
      assert '<' !in s ==> '<' !in s[1..] by {
        assert forall i :: 0 <= i < |s[1..]| ==> s[1..][i] == s[i + 1];
      }
      [s[0]] + StripTags(s[1..])
  }

  /** What follows the `>` closing a tag, or nothing when the tag is never closed. */
  function SkipTag(s: string): (r: string)
    ensures |r| <= |s|
    decreases |s|
  {
    if s == [] then ""
    else if s[0] == '>' then s[1..]
    else SkipTag(s[1..])
  }

  /** Text before the first `<` passes through unchanged. */
  lemma {:induction false} StripTagsKeepsText(x: string, y: string)
    requires '<' !in x
    ensures StripTags(x + y) == x + StripTags(y)
    decreases |x|
  {
    if x != [] {
      var s := x + y;
      assert x[0] in x;
      assert s[0] == x[0] != '<';
      assert StripTags(s) == [x[0]] + StripTags(s[1..]);
      assert s[1..] == x[1..] + y;
      assert '<' !in x[1..] by {
        assert x == [x[0]] + x[1..];
      }
      StripTagsKeepsText(x[1..], y);
      assert x == [x[0]] + x[1..];
    } else {
      assert x + y == y;
    }
  }

  /** A tag body without `>` is skipped up to its closing `>`, or to the end when it is never closed. */
  lemma {:induction false} SkipTagOf(t: string, y: string)
    requires '>' !in t
    ensures SkipTag(t + ">" + y) == y
    ensures SkipTag(t) == ""
    decreases |t|
  {
    if t == [] {
      assert t + ">" + y == [ '>' ] + y;
    } else {
      assert t[0] in t;
      assert (t + ">" + y)[0] == t[0] && (t + ">" + y)[1..] == t[1..] + ">" + y;
      assert '>' !in t[1..] by {
        assert forall i :: 0 <= i < |t[1..]| ==> t[1..][i] == t[i + 1];
      }
      SkipTagOf(t[1..], y);
    }
  }

  /**
   * Stripping removes exactly the markup: the text around a tag is kept in
   * order, and an unclosed tag removes everything after its `<`.
   */
  lemma StripTagsDropsTag(x: string, t: string, y: string)
    requires '<' !in x && '>' !in t
    ensures StripTags(x + ("<" + t + ">" + y)) == x + StripTags(y)
    ensures StripTags(x + ("<" + t)) == x
  {
    StripTagAt(t, y);
    StripTagsKeepsText(x, "<" + t + ">" + y);
    StripTagsKeepsText(x, "<" + t);
    assert x + [] == x;
  }

  /** One tag at the start is dropped. */
  lemma StripTagAt(t: string, y: string)
    requires '>' !in t
    ensures StripTags("<" + t + ">" + y) == StripTags(y)
    ensures StripTags("<" + t) == ""
  {
    SkipTagOf(t, y);
    var closed := "<" + t + ">" + y;
    assert closed[0] == '<' && closed[1..] == t + ">" + y;
    var open := "<" + t;
    assert open[0] == '<' && open[1..] == t;
  }

  /** `article.content.find(c => c.type === PARAGRAPH)`. */
  function FirstParagraph(content: seq<ArticleBlock>): (r: Option<string>)
    ensures r.None? <==> forall i :: 0 <= i < |content| ==> !content[i].Paragraph?
    ensures r.Some? ==> exists i :: 0 <= i < |content| && content[i] == Paragraph(content[i].blockId, r.value)
                                    && forall j :: 0 <= j < i ==> !content[j].Paragraph?
  {
    if content == [] then None
    else if content[0].Paragraph? then Some(content[0].text)
    else
      var r := FirstParagraph(content[1..]);
      assert forall i :: 1 <= i < |content| ==> content[i] == content[1..][i - 1];
      if r.Some? then
        var k :| 0 <= k < |content[1..]| && content[1..][k] == Paragraph(content[1..][k].blockId, r.value)
                 && forall j :: 0 <= j < k ==> !content[1..][j].Paragraph?;
        assert content[k + 1] == Paragraph(content[k + 1].blockId, r.value);
        r
      else r
  }

  /** The number of characters kept before the ellipsis. */
  const ExcerptLength: nat := 150

  /** `plainText.substring(0, 150) + (plainText.length > 150 ? '...' : '')`. */
  function Truncate(plain: string): (r: string)
    ensures |plain| <= ExcerptLength ==> r == plain
    ensures |plain| > ExcerptLength ==> r == plain[..ExcerptLength] + "..."
    ensures |r| <= ExcerptLength + 3
  {
    if |plain| > ExcerptLength then plain[..ExcerptLength] + "..." else plain
  }

  /** The excerpt derived from the article's first paragraph, without markup; "" without a paragraph. */
  function DerivedExcerpt(a: Article): (r: string)
    ensures FirstParagraph(a.content).None? ==> r == ""
    ensures FirstParagraph(a.content).Some? ==> r == Truncate(StripTags(FirstParagraph(a.content).value))
    ensures '<' !in r && |r| <= ExcerptLength + 3
  {
    match FirstParagraph(a.content)
    case None => ""
    case Some(t) =>
      var plain := StripTags(t);
      var r := Truncate(plain);
      assert '<' !in r by {
        if |plain| > ExcerptLength {
          var kept := plain[..ExcerptLength];
          assert forall i :: 0 <= i < |kept| ==> kept[i] == plain[i];
          assert forall i :: 0 <= i < |r| ==> r[i] == if i < |kept| then kept[i] else "..."[i - |kept|];
        }
      }
      r
  }

  /** `article.excerpt || excerptText || fallback`. */
  function DisplayExcerpt(a: Article, fallback: string): (r: string)
    ensures a.excerpt.Some? && a.excerpt.value != "" ==> r == a.excerpt.value
    ensures (a.excerpt.None? || a.excerpt.value == "") && DerivedExcerpt(a) != "" ==> r == DerivedExcerpt(a)
    ensures (a.excerpt.None? || a.excerpt.value == "") && DerivedExcerpt(a) == "" ==> r == fallback
  {
    if a.excerpt.Some? && a.excerpt.value != "" then a.excerpt.value
    else if DerivedExcerpt(a) != "" then DerivedExcerpt(a)
    else fallback
  }

  // ---------------------------------------------------------------------------
  // Read status and opening an article
  // ---------------------------------------------------------------------------

  /** `articleProgress.find(p => p.articleId === id)`. */
  function FirstRecord(ps: seq<ArticleProgress>, id: string): (r: Option<ArticleProgress>)
    ensures r.None? ==> Reducer.RecordsFor(ps, id) == []
    ensures r.Some? ==> Reducer.RecordsFor(ps, id) != [] && r.value == Reducer.RecordsFor(ps, id)[0]
    decreases |ps|
  {
    if ps == [] then None
    else if ps[0].articleId == id then Some(ps[0])
    else FirstRecord(ps[1..], id)
  }

  /** `getReadStatus`: read iff the article's first progress record says so. */
  function IsRead(ps: seq<ArticleProgress>, id: string): bool
  {
    match FirstRecord(ps, id)
    case None => false
    case Some(p) => p.isRead
  }

  /** Marking an article read shows it read; marking it unread shows it unread. */
  lemma StatusFollowsMarks(ps: seq<ArticleProgress>, id: string, now: string)
    ensures IsRead(Reducer.MarkRead(ps, id, now), id)
    ensures !IsRead(Reducer.MarkUnread(ps, id, now), id)
  {
    var un := Reducer.MarkUnread(ps, id, now);
    var recs := Reducer.RecordsFor(un, id);
    if FirstRecord(un, id).Some? {
      assert recs[0] in recs;
    }
  }

  /** Opening an article from its card: only the view and the article are given. */
  function ReadArticle(id: string): (a: Action)
    ensures a.SetView? && a.request.view == ArticleView && a.request.activeArticleId == Set(Some(id))
    ensures a.request.editingId.Unset? && a.request.activeTestProfileId.Unset?
    ensures a.request.activeFlashcardDeckId.Unset? && a.request.editingFlashcardId.Unset?
  {
    SetView(ViewRequest(ArticleView, Unset, Unset, Unset, Unset, Set(Some(id))))
  }

  /**
   * After opening an article the app shows it; the selected profile and deck
   * are kept, and no question or card is being edited.
   */
  lemma ReadArticleOpens(s: AppState, id: string, env: Env, d: Defaults)
    ensures Reducer.Reduce(s, ReadArticle(id), env, d)
      == s.(activeView := ArticleView, activeArticleId := Some(id), editingQuestionId := None, editingFlashcardId := None)
  {
    var a := ReadArticle(id);
    assert Reducer.Reduce(s, a, env, d) == Reducer.ReduceOther(s, a, env, d) == Reducer.SetViewStep(s, a.request);
    ArticleViewStep(s, a.request, id);
  }

  lemma ArticleViewStep(s: AppState, req: ViewRequest, id: string)
    requires req == ViewRequest(ArticleView, Unset, Unset, Unset, Unset, Set(Some(id)))
    ensures Reducer.SetViewStep(s, req)
      == s.(activeView := ArticleView, activeArticleId := Some(id), editingQuestionId := None, editingFlashcardId := None)
  {
    assert !Reducer.Unscoped(ArticleView);
  }
}
