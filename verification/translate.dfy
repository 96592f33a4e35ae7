/**
 * `translate(key, replacements)`: a dot-path lookup in the current
 * language's translation table with an English fallback, followed by
 * substitution of `{name}` placeholders. The tables themselves are data of
 * the app's constants file and arrive here as a parameter.
 */
module Translate {
  import opened Wrappers
  import opened Types
  import opened Strings
  import Store

  /** A translation table entry: a string, or a nested table. */
  datatype Entry = Text(text: string) | Table(entries: map<string, Entry>)

  datatype LanguagePacks = LanguagePacks(lv: map<string, Entry>, en: map<string, Entry>, uk: map<string, Entry>)
  {
    function Pack(lang: Language): map<string, Entry>
    {
      match lang
      case LV => lv
      case EN => en
      case UK => uk
    }
  }

  /** Following the path from `level`; `None` where the source's loop takes its not-found branch. */
  function Walk(level: Entry, parts: seq<string>): Option<Entry>
    decreases |parts|
  {
    if parts == [] then Some(level)
    else match level
      case Text(_) => None
      case Table(m) => if parts[0] in m then Walk(m[parts[0]], parts[1..]) else None
  }

  /** The table `pack` holds the string `t` at the dot path `key`. */
  predicate Found(pack: map<string, Entry>, key: string, t: string)
  {
    Walk(Table(pack), Split(key, '.')) == Some(Text(t))
  }

  function NotFound(key: string): string { "KEY_NOT_FOUND: " + key }
  function ComplexNotFound(key: string): string { "COMPLEX_KEY_NOT_FOUND: " + key }
  const EnglishMissPrefix := "KEY_NOT_FOUND_IN_EN"

  /** The lookup half of `translate`: it never fails, it answers with a marker string instead. */
  function Lookup(packs: LanguagePacks, lang: Language, key: string): (r: string)
    ensures Found(packs.Pack(lang), key, r)
         || (lang != EN && Found(packs.en, key, r))
         || r == NotFound(key) || r == ComplexNotFound(key)
  {
    var parts := Split(key, '.');
    match Walk(Table(packs.Pack(lang)), parts)
    case Some(Text(t)) => t
    case Some(Table(_)) => ComplexNotFound(key)
    case None =>
      if lang == EN then NotFound(key)
      else match Walk(Table(packs.en), parts)
        case Some(Text(t)) => if StartsWith(t, EnglishMissPrefix) then NotFound(key) else t
        case _ => NotFound(key)
  }

  /** `text.replace(/\{k\}/g, v)` for each replacement in turn. */
  function Substitute(text: string, reps: seq<Store.Replacement>): string
    decreases |reps|
  {
    if reps == [] then text
    else Substitute(ReplaceMatches("", text, Placeholder(reps[0].key), reps[0].value), reps[1..])
  }

  /**
   * The text a string replacement inserts for one match: JavaScript expands
   * `$$` to `$`, `$&` to the match, `` $` `` to the text before it and `$'`
   * to the text after it. The placeholder pattern has no capture groups, so
   * every other `$` stays as written.
   */
  function Expand(v: string, matched: string, before: string, after: string): (r: string)
    ensures '$' !in v ==> r == v
    decreases |v|
  {
    if v == [] then []
    else if v[0] == '$' && |v| >= 2 && v[1] == '$' then "$" + Expand(v[2..], matched, before, after)
    else if v[0] == '$' && |v| >= 2 && v[1] == '&' then matched + Expand(v[2..], matched, before, after)
    else if v[0] == '$' && |v| >= 2 && v[1] == '`' then before + Expand(v[2..], matched, before, after)
    else if v[0] == '$' && |v| >= 2 && v[1] == '\'' then after + Expand(v[2..], matched, before, after)
    else [v[0]] + Expand(v[1..], matched, before, after)
  }

  /**
   * A global replacement of the literal pattern `p` in `before + s`, where
   * `before` is the part already scanned: matches are found left to right
   * without overlap and each is replaced by the expansion of `v` for that
   * match, with the text around it taken from the original string.
   */
  function ReplaceMatches(before: string, s: string, p: string, v: string): string
    requires |p| > 0
    decreases |s|
  {
    if |s| < |p| then s
    else if s[..|p|] == p then Expand(v, p, before, s[|p|..]) + ReplaceMatches(before + p, s[|p|..], p, v)
    else [s[0]] + ReplaceMatches(before + [s[0]], s[1..], p, v)
  }

  function Placeholder(k: string): (p: string)
    ensures |p| == |k| + 2 && p[0] == '{'
  {
    "{" + k + "}"
  }

  function Translate(packs: LanguagePacks, lang: Language, key: string, reps: seq<Store.Replacement>): string
  {
    Substitute(Lookup(packs, lang, key), reps)
  }

  // ---------------------------------------------------------------------------
  // Lookup by path
  // ---------------------------------------------------------------------------

  /**
   * A string stored at a path of dot-free names is what `translate` returns
   * for the dotted key; when the current language lacks it, the English one
   * is returned unless it looks like a miss marker itself.
   */
  lemma LookupByPath(packs: LanguagePacks, lang: Language, parts: seq<string>, t: string)
    requires |parts| >= 1 && forall i :: 0 <= i < |parts| ==> '.' !in parts[i]
    ensures Walk(Table(packs.Pack(lang)), parts) == Some(Text(t)) ==> Lookup(packs, lang, Join(parts, '.')) == t
    ensures Walk(Table(packs.Pack(lang)), parts).None? && lang != EN && Walk(Table(packs.en), parts) == Some(Text(t))
            && !StartsWith(t, EnglishMissPrefix)
            ==> Lookup(packs, lang, Join(parts, '.')) == t
    ensures (exists m :: Walk(Table(packs.Pack(lang)), parts) == Some(Table(m)))
            ==> Lookup(packs, lang, Join(parts, '.')) == ComplexNotFound(Join(parts, '.'))
  {
    SplitJoin(parts, '.');
  }

  /** A key absent from every table yields the not-found marker. */
  lemma LookupMissing(packs: LanguagePacks, lang: Language, key: string)
    requires Walk(Table(packs.Pack(lang)), Split(key, '.')).None?
    requires Walk(Table(packs.en), Split(key, '.')).None?
    ensures Lookup(packs, lang, key) == NotFound(key)
  {
  }

  // ---------------------------------------------------------------------------
  // Placeholder substitution
  // ---------------------------------------------------------------------------

  /** With a value free of `$`, the replacement inserts the value literally. */
  lemma {:induction false} ReplaceMatchesLiteral(before: string, s: string, p: string, v: string)
    requires |p| > 0 && '$' !in v
    ensures ReplaceMatches(before, s, p, v) == ReplaceAll(s, p, v)
    decreases |s|
  {
    if |s| >= |p| {
      if s[..|p|] == p {
        ReplaceMatchesLiteral(before + p, s[|p|..], p, v);
      } else {
        ReplaceMatchesLiteral(before + [s[0]], s[1..], p, v);
      }
    }
  }

  /**
   * `$&` puts the placeholder itself back, `$$` inserts one dollar sign, and
   * `` $` `` and `$'` insert the text before and after the match.
   */
  lemma DollarPatterns()
    ensures Substitute("{n}!", [Store.Replacement("n", "$&")]) == "{n}!"
    ensures Substitute("{n}!", [Store.Replacement("n", "$$")]) == "$!"
    ensures Substitute("a{n}b", [Store.Replacement("n", "$`$'")]) == "aabb"
  {
    DollarMatch();
    DollarDollar();
    DollarAround();
  }

  lemma DollarMatch()
    ensures Substitute("{n}!", [Store.Replacement("n", "$&")]) == "{n}!"
  {
    var p := Placeholder("n");
    assert p == "{n}";
    var s := "{n}!";
    assert s[..3] == p && s[3..] == "!";
    assert ReplaceMatches(p, "!", p, "$&") == "!";
  }

  lemma DollarDollar()
    ensures Substitute("{n}!", [Store.Replacement("n", "$$")]) == "$!"
  {
    var p := Placeholder("n");
    assert p == "{n}";
    var s := "{n}!";
    assert s[..3] == p && s[3..] == "!";
    assert ReplaceMatches(p, "!", p, "$$") == "!";
  }

  lemma DollarAround()
    ensures Substitute("a{n}b", [Store.Replacement("n", "$`$'")]) == "aabb"
  {
    var p := Placeholder("n");
    assert p == "{n}";
    var v := "$`$'";
    var s := "a{n}b";
    var t := "{n}b";
    assert s[..3] != p && s[1..] == t && [] + [s[0]] == "a";
    assert t[..3] == p && t[3..] == "b";
    assert Expand(v[2..], p, "a", "b") == "b";
    assert Expand(v, p, "a", "b") == "ab";
    assert ReplaceMatches("a" + p, "b", p, v) == "b";
    assert ReplaceMatches("a", t, p, v) == "abb";
    assert ReplaceMatches("", s, p, v) == "a" + "abb";
  }

  /** A translation string seen as literal runs and `{name}` holes. */
  datatype Piece = Lit(s: string) | Hole(name: string)

  function PieceText(p: Piece): string
  {
    match p
    case Lit(s) => s
    case Hole(k) => Placeholder(k)
  }

  function TemplateText(ps: seq<Piece>): string
    decreases |ps|
  {
    if ps == [] then "" else PieceText(ps[0]) + TemplateText(ps[1..])
  }

  /** The value of the first replacement named `k`. */
  function ValueFor(reps: seq<Store.Replacement>, k: string): Option<string>
    decreases |reps|
  {
    if reps == [] then None
    else if reps[0].key == k then Some(reps[0].value)
    else ValueFor(reps[1..], k)
  }

  /** The intended result: each hole with a supplied name shows its value, every other hole stays as written. */
  function Render(ps: seq<Piece>, reps: seq<Store.Replacement>): string
    decreases |ps|
  {
    if ps == [] then ""
    else
      var head := match ps[0]
        case Lit(s) => s
        case Hole(k) => ValueFor(reps, k).GetOr(Placeholder(k));
      head + Render(ps[1..], reps)
  }

  predicate NoBraces(s: string) { '{' !in s && '}' !in s }

  /** Literal runs hold no `{`, hole names hold no braces. */
  predicate WellFormedTemplate(ps: seq<Piece>)
  {
    forall i :: 0 <= i < |ps| ==> match ps[i]
      case Lit(s) => '{' !in s
      case Hole(k) => NoBraces(k)
  }

  /**
   * Replacement names hold no braces; values hold no `{` and no `$`, so
   * they are inserted as written.
   */
  predicate PlainReplacements(reps: seq<Store.Replacement>)
  {
    forall i :: 0 <= i < |reps| ==> NoBraces(reps[i].key) && '{' !in reps[i].value && '$' !in reps[i].value
  }

  /** The template after one replacement: holes named `k` become the literal `v`. */
  function Fill(ps: seq<Piece>, k: string, v: string): (r: seq<Piece>)
    ensures |r| == |ps|
    decreases |ps|
  {
    if ps == [] then []
    else [if ps[0] == Hole(k) then Lit(v) else ps[0]] + Fill(ps[1..], k, v)
  }

  /** Two different brace-free names never produce overlapping placeholders at the same start. */
  lemma PlaceholderMismatch(k: string, k2: string, rest: string)
    requires NoBraces(k) && NoBraces(k2) && k != k2
    requires |Placeholder(k2) + rest| >= |Placeholder(k)|
    ensures (Placeholder(k2) + rest)[..|Placeholder(k)|] != Placeholder(k)
  {
    var s := Placeholder(k2) + rest;
    var p := Placeholder(k);
    var i: int;
    if |k2| == |k| {
      assert !(forall j :: 0 <= j < |k| ==> k2[j] == k[j]);
      var j :| 0 <= j < |k| && k2[j] != k[j];
      assert s[j + 1] == k2[j] && p[j + 1] == k[j];
      i := j + 1;
    } else if |k2| > |k| {
      assert k2[|k|] in k2;
      assert s[|k| + 1] == k2[|k|] && p[|k| + 1] == '}';
      i := |k| + 1;
    } else {
      assert k[|k2|] in k;
      assert s[|k2| + 1] == '}' && p[|k2| + 1] == k[|k2|];
      i := |k2| + 1;
    }
    assert 0 <= i < |p| && s[..|p|][i] != p[i];
  }

  /** Replacement of `{k}` on a hole named `k` puts the value in its place. */
  lemma ReplaceAtMatch(rest: string, p: string, v: string)
    requires |p| > 0
    ensures ReplaceAll(p + rest, p, v) == v + ReplaceAll(rest, p, v)
  {
    var s := p + rest;
    assert s[..|p|] == p;
    assert s[|p|..] == rest;
  }

  /** Replacement of `{k}` passes over a hole with another name. */
  lemma ReplacePastOtherHole(k: string, k2: string, rest: string, v: string)
    requires NoBraces(k) && NoBraces(k2) && k != k2
    ensures ReplaceAll(Placeholder(k2) + rest, Placeholder(k), v) == Placeholder(k2) + ReplaceAll(rest, Placeholder(k), v)
  {
    var s := Placeholder(k2) + rest;
    var p := Placeholder(k);
    if |s| < |p| {
      assert ReplaceAll(rest, p, v) == rest;
    } else {
      PlaceholderMismatch(k, k2, rest);
      var tail := k2 + "}";
      assert '{' !in tail;
      ReplaceAllSkipsPrefix(tail, rest, p, v);
      calc {
        ReplaceAll(s, p, v);
        [s[0]] + ReplaceAll(s[1..], p, v);
        { assert s[1..] == tail + rest; }
        [s[0]] + (tail + ReplaceAll(rest, p, v));
        ([s[0]] + tail) + ReplaceAll(rest, p, v);
        { assert [s[0]] + tail == Placeholder(k2); }
        Placeholder(k2) + ReplaceAll(rest, p, v);
      }
    }
  }

  /** One replacement step on template text is `Fill` on the template. */
  lemma {:induction false} ReplaceStep(ps: seq<Piece>, k: string, v: string)
    requires WellFormedTemplate(ps) && NoBraces(k)
    ensures ReplaceAll(TemplateText(ps), Placeholder(k), v) == TemplateText(Fill(ps, k, v))
    decreases |ps|
  {
    var p := Placeholder(k);
    if ps == [] {
    } else {
      var rest := TemplateText(ps[1..]);
      assert WellFormedTemplate(ps[1..]) by {
        forall i | 0 <= i < |ps[1..]| ensures match ps[1..][i] case Lit(s) => '{' !in s case Hole(n) => NoBraces(n) {
          assert ps[1..][i] == ps[i + 1];
        }
      }
      ReplaceStep(ps[1..], k, v);
      assert 0 < |ps|;
      match ps[0]
      case Lit(s) =>
        assert '{' !in s;
        ReplaceAllSkipsPrefix(s, rest, p, v);
      case Hole(k2) =>
        if k2 == k {
          ReplaceAtMatch(rest, p, v);
        } else {
          ReplacePastOtherHole(k, k2, rest, v);
        }
    }
  }

  lemma {:induction false} FillKeepsWellFormed(ps: seq<Piece>, k: string, v: string)
    requires WellFormedTemplate(ps) && '{' !in v
    ensures WellFormedTemplate(Fill(ps, k, v))
    decreases |ps|
  {
    if ps != [] {
      assert WellFormedTemplate(ps[1..]) by {
        forall i | 0 <= i < |ps[1..]| ensures match ps[1..][i] case Lit(s) => '{' !in s case Hole(n) => NoBraces(n) {
          assert ps[1..][i] == ps[i + 1];
        }
      }
      FillKeepsWellFormed(ps[1..], k, v);
      var r := Fill(ps, k, v);
      forall i | 0 <= i < |r| ensures match r[i] case Lit(s) => '{' !in s case Hole(n) => NoBraces(n) {
        if i > 0 {
          assert r[i] == Fill(ps[1..], k, v)[i - 1];
        }
      }
    }
  }

  /** Rendering after a fill with the first replacement is rendering with all of them. */
  lemma {:induction false} RenderFill(ps: seq<Piece>, reps: seq<Store.Replacement>)
    requires reps != []
    ensures Render(Fill(ps, reps[0].key, reps[0].value), reps[1..]) == Render(ps, reps)
    decreases |ps|
  {
    if ps != [] {
      RenderFill(ps[1..], reps);
      assert Fill(ps, reps[0].key, reps[0].value)[1..] == Fill(ps[1..], reps[0].key, reps[0].value);
    }
  }

  /**
   * Substitution is correct: on a translation string made of brace-free
   * literals and well-formed holes, replacing each supplied `{k}` in turn
   * yields every supplied hole's value and leaves every other hole intact.
   */
  lemma {:induction false} SubstituteRenders(ps: seq<Piece>, reps: seq<Store.Replacement>)
    requires WellFormedTemplate(ps) && PlainReplacements(reps)
    ensures Substitute(TemplateText(ps), reps) == Render(ps, reps)
    decreases |reps|
  {
    if reps == [] {
      RenderNoReplacements(ps);
    } else {
      var r := reps[0];
      assert NoBraces(r.key) && '{' !in r.value && '$' !in r.value;
      ReplaceMatchesLiteral("", TemplateText(ps), Placeholder(r.key), r.value);
      ReplaceStep(ps, r.key, r.value);
      FillKeepsWellFormed(ps, r.key, r.value);
      assert PlainReplacements(reps[1..]) by {
        forall i | 0 <= i < |reps[1..]|
          ensures NoBraces(reps[1..][i].key) && '{' !in reps[1..][i].value && '$' !in reps[1..][i].value
        {
          assert reps[1..][i] == reps[i + 1];
        }
      }
      SubstituteRenders(Fill(ps, r.key, r.value), reps[1..]);
      RenderFill(ps, reps);
    }
  }

  /** With no replacements the template renders as written. */
  lemma {:induction false} RenderNoReplacements(ps: seq<Piece>)
    ensures Render(ps, []) == TemplateText(ps)
    decreases |ps|
  {
    if ps != [] {
      RenderNoReplacements(ps[1..]);
    }
  }
}
