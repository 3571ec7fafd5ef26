/** The in-memory index of source pages: one growing buffer of pages with three maps
    from keys to positions, and deletions that compact the buffer in place. */
module SourceIndex {
  import opened Common

  /** An empty language is the site's default. */
  datatype SourcePage = SourcePage(slug: string, lang: string, path: string, body: string, pending: bool)

  /** What a lookup asks for. */
  datatype Query = BySlug(slug: string) | ByLang(slug: string, lang: string) | Default(slug: string) {
    predicate Matches(p: SourcePage) {
      match this
      case BySlug(s) => p.slug == s
      case ByLang(s, l) => l != "" && p.slug == s && p.lang == l
      case Default(s) => p.slug == s && p.lang == ""
    }
  }

  /** The slot a page belongs to: at most one page per slot is ever added by Upsert. */
  function SlotOf(slug: string, lang: string): Query {
    if lang == "" then Default(slug) else ByLang(slug, lang)
  }

  // ----- the linear scan -----

  /** Position of the last match; later pages win. */
  function LastMatch(pages: seq<SourcePage>, q: Query): (r: Option<nat>)
    ensures r.Some? ==> r.value < |pages| && q.Matches(pages[r.value])
    ensures r.Some? ==> forall k :: r.value < k < |pages| ==> !q.Matches(pages[k])
    ensures r.None? ==> forall k :: 0 <= k < |pages| ==> !q.Matches(pages[k])
  {
    if pages == [] then None
    else
      var n := |pages| - 1;
      if q.Matches(pages[n]) then Some(n) else LastMatch(pages[..n], q)
  }

  function Scan(pages: seq<SourcePage>, q: Query): Option<SourcePage> {
    var k := LastMatch(pages, q);
    if k.Some? then Some(pages[k.value]) else None
  }

  /** The pages that do not match, in their order. */
  function Without(pages: seq<SourcePage>, q: Query): seq<SourcePage> {
    if pages == [] then []
    else
      var n := |pages| - 1;
      Without(pages[..n], q) + if q.Matches(pages[n]) then [] else [pages[n]]
  }

  function With(pages: seq<SourcePage>, p: SourcePage): seq<SourcePage> {
    var k := LastMatch(pages, SlotOf(p.slug, p.lang));
    if k.Some? then pages[k.value := p] else pages + [p]
  }

  lemma LastMatchIs(pages: seq<SourcePage>, q: Query, k: nat)
    requires k < |pages| && q.Matches(pages[k]) && forall j :: k < j < |pages| ==> !q.Matches(pages[j])
    ensures LastMatch(pages, q) == Some(k)
  {
  }

  lemma LastMatchSnoc(pages: seq<SourcePage>, p: SourcePage, q: Query)
    ensures LastMatch(pages + [p], q) == if q.Matches(p) then Some(|pages|) else LastMatch(pages, q)
    ensures Scan(pages + [p], q) == if q.Matches(p) then Some(p) else Scan(pages, q)
  {
    assert (pages + [p])[..|pages|] == pages;
  }

  type Positions = map<string, nat>

  /** Every map entry is the scan's answer. */
  ghost predicate MapsFor(pages: seq<SourcePage>, bySlug: Positions, bySlugLang: map<(string, string), nat>, byDefault: Positions) {
    && (forall s :: Lookup(bySlug, s) == LastMatch(pages, BySlug(s)))
    && (forall s, l :: Lookup(bySlugLang, (s, l)) == LastMatch(pages, ByLang(s, l)))
    && (forall s :: Lookup(byDefault, s) == LastMatch(pages, Default(s)))
  }

  lemma MapsStep(pages: seq<SourcePage>, p: SourcePage, bySlug: Positions, bySlugLang: map<(string, string), nat>, byDefault: Positions)
    requires MapsFor(pages, bySlug, bySlugLang, byDefault)
    ensures MapsFor(pages + [p], bySlug[p.slug := |pages|],
                    if p.lang != "" then bySlugLang[(p.slug, p.lang) := |pages|] else bySlugLang,
                    if p.lang != "" then byDefault else byDefault[p.slug := |pages|])
  {
    forall s ensures Lookup(bySlug[p.slug := |pages|], s) == LastMatch(pages + [p], BySlug(s)) {
      LastMatchSnoc(pages, p, BySlug(s));
      assert Lookup(bySlug, s) == LastMatch(pages, BySlug(s));
    }
    forall s ensures Lookup(if p.lang != "" then byDefault else byDefault[p.slug := |pages|], s) == LastMatch(pages + [p], Default(s)) {
      LastMatchSnoc(pages, p, Default(s));
      assert Lookup(byDefault, s) == LastMatch(pages, Default(s));
    }
    forall s, l ensures Lookup(if p.lang != "" then bySlugLang[(p.slug, p.lang) := |pages|] else bySlugLang, (s, l)) == LastMatch(pages + [p], ByLang(s, l)) {
      LastMatchSnoc(pages, p, ByLang(s, l));
      assert Lookup(bySlugLang, (s, l)) == LastMatch(pages, ByLang(s, l));
    }
  }

  class SourceIndex {
    var buf: array<SourcePage>
    var n: nat
    var bySlug: map<string, nat>
    var bySlugLang: map<(string, string), nat>
    var byDefault: map<string, nat>

    ghost function Pages(): seq<SourcePage>
      requires n <= buf.Length
      reads this, buf
    {
      buf[..n]
    }

    ghost predicate Valid()
      reads this, buf
    {
      n <= buf.Length && MapsFor(Pages(), bySlug, bySlugLang, byDefault)
    }

    constructor (pages: seq<SourcePage>)
      ensures Valid() && Pages() == pages && fresh(buf)
    {
      buf := new SourcePage[|pages|](i requires 0 <= i < |pages| => pages[i]);
      n := |pages|;
      bySlug, bySlugLang, byDefault := map[], map[], map[];
      new;
      assert buf[..n] == pages;
      RebuildMaps();
    }

    method RebuildMaps()
      requires n <= buf.Length
      modifies this`bySlug, this`bySlugLang, this`byDefault
      ensures Valid()
    {
      bySlug, bySlugLang, byDefault := map[], map[], map[];
      for i := 0 to n
        invariant n <= buf.Length
        invariant MapsFor(buf[..i], bySlug, bySlugLang, byDefault)
      {
        var p := buf[i];
        assert buf[..i+1] == buf[..i] + [p];
        MapsStep(buf[..i], p, bySlug, bySlugLang, byDefault);
        bySlug := bySlug[p.slug := i];
        if p.lang != "" {
          bySlugLang := bySlugLang[(p.slug, p.lang) := i];
          continue;
        }
        byDefault := byDefault[p.slug := i];
      }
    }

    method GetBySlug(slug: string) returns (r: Option<SourcePage>)
      requires Valid()
      ensures r == Scan(Pages(), BySlug(slug))
    {
      assert Lookup(bySlug, slug) == LastMatch(Pages(), BySlug(slug));
      if slug !in bySlug {
        return None;
      }
      return Some(buf[bySlug[slug]]);
    }

    method GetBySlugLang(slug: string, lang: string) returns (r: Option<SourcePage>)
      requires Valid()
      ensures r == Scan(Pages(), ByLang(slug, lang))
    {
      assert Lookup(bySlugLang, (slug, lang)) == LastMatch(Pages(), ByLang(slug, lang));
      if (slug, lang) !in bySlugLang {
        return None;
      }
      return Some(buf[bySlugLang[(slug, lang)]]);
    }

    method GetDefaultBySlug(slug: string) returns (r: Option<SourcePage>)
      requires Valid()
      ensures r == Scan(Pages(), Default(slug))
    {
      assert Lookup(byDefault, slug) == LastMatch(Pages(), Default(slug));
      if slug !in byDefault {
        return None;
      }
      return Some(buf[byDefault[slug]]);
    }

    method Upsert(page: SourcePage)
      requires Valid()
      modifies this, buf
      ensures Valid()
      ensures Pages() == With(old(Pages()), page)
      ensures buf == old(buf) || fresh(buf)
    {
      assert Lookup(bySlugLang, (page.slug, page.lang)) == LastMatch(Pages(), ByLang(page.slug, page.lang));
      assert Lookup(byDefault, page.slug) == LastMatch(Pages(), Default(page.slug));
      if page.lang != "" {
        if (page.slug, page.lang) in bySlugLang {
          buf[bySlugLang[(page.slug, page.lang)]] := page;
          assert Pages() == With(old(Pages()), page);
          RebuildMaps();
          return;
        }
      } else if page.slug in byDefault {
        buf[byDefault[page.slug]] := page;
        assert Pages() == With(old(Pages()), page);
        RebuildMaps();
        return;
      }
      Append(page);
      RebuildMaps();
    }

    /** Go's append: in place while capacity lasts, else into a larger copy. */
    method Append(page: SourcePage)
      requires n <= buf.Length
      modifies this`buf, this`n, buf
      ensures n <= buf.Length && Pages() == old(Pages()) + [page]
      ensures buf == old(buf) || fresh(buf)
    {
      if n == buf.Length {
        var bigger := new SourcePage[2 * n + 1](i requires 0 <= i < 2 * n + 1 reads this, buf =>
          if i < n <= buf.Length then buf[i] else page);
        buf := bigger;
      }
      buf[n] := page;
      n := n + 1;
      assert buf[..n-1] == old(buf[..n]);
    }

    /** The filter loop of Delete and DeleteLang: kept pages slide to the front of the
        same buffer. */
    method Compact(q: Query)
      requires n <= buf.Length
      modifies this`n, buf
      ensures n <= buf.Length && Pages() == Without(old(Pages()), q)
    {
      ghost var was := buf[..n];
      var kept := 0;
      for i := 0 to n
        invariant n == |was| <= buf.Length
        invariant kept <= i
        invariant buf[..kept] == Without(was[..i], q)
        invariant forall k :: i <= k < n ==> buf[k] == was[k]
      {
        var page := buf[i];
        assert was[..i+1][..i] == was[..i];
        if q.Matches(page) {
          continue;
        }
        buf[kept] := page;
        kept := kept + 1;
        assert buf[..kept] == buf[..kept-1] + [page];
      }
      assert was[..n] == was;
      n := kept;
    }

    method Delete(slug: string)
      requires Valid()
      modifies this, buf
      ensures Valid() && buf == old(buf)
      ensures Pages() == Without(old(Pages()), BySlug(slug))
    {
      if n == 0 {
        return;
      }
      Compact(BySlug(slug));
      RebuildMaps();
    }

    method DeleteLang(slug: string, lang: string)
      requires Valid()
      modifies this, buf
      ensures Valid() && buf == old(buf)
      ensures Pages() == Without(old(Pages()), SlotOf(slug, lang))
    {
      if n == 0 {
        return;
      }
      Compact(SlotOf(slug, lang));
      RebuildMaps();
    }
  }

  // ----- lookups and updates in terms of the pages -----

  /** The last page with the slug; with slug and language, for a language that is not the
      default; with the slug and no language. */
  lemma LookupsFind(pages: seq<SourcePage>, slug: string, lang: string, k: nat)
    requires k < |pages| && pages[k].slug == slug
    ensures (forall j :: k < j < |pages| ==> pages[j].slug != slug) ==> Scan(pages, BySlug(slug)) == Some(pages[k])
    ensures lang != "" && pages[k].lang == lang && (forall j :: k < j < |pages| ==> pages[j].slug != slug || pages[j].lang != lang) ==>
      Scan(pages, ByLang(slug, lang)) == Some(pages[k])
    ensures pages[k].lang == "" && (forall j :: k < j < |pages| ==> pages[j].slug != slug || pages[j].lang != "") ==>
      Scan(pages, Default(slug)) == Some(pages[k])
  {
  }

  lemma LookupsMiss(pages: seq<SourcePage>, slug: string, lang: string)
    ensures Scan(pages, BySlug(slug)) == None <==> forall p <- pages :: p.slug != slug
    ensures lang != "" ==> (Scan(pages, ByLang(slug, lang)) == None <==> forall p <- pages :: p.slug != slug || p.lang != lang)
    ensures Scan(pages, Default(slug)) == None <==> forall p <- pages :: p.slug != slug || p.lang != ""
  {
    var b, l, d := LastMatch(pages, BySlug(slug)), LastMatch(pages, ByLang(slug, lang)), LastMatch(pages, Default(slug));
    assert b.Some? ==> pages[b.value] in pages;
    assert l.Some? ==> pages[l.value] in pages;
    assert d.Some? ==> pages[d.value] in pages;
  }

  /** A deletion keeps, in their order, the pages at exactly the positions it does not
      cover. */
  lemma {:induction false} KeptPositions(pages: seq<SourcePage>, q: Query) returns (at: seq<nat>)
    ensures |at| == |Without(pages, q)|
    ensures forall k :: 0 <= k < |at| ==> at[k] < |pages| && Without(pages, q)[k] == pages[at[k]]
    ensures forall k, l :: 0 <= k < l < |at| ==> at[k] < at[l]
    ensures forall i: nat :: i in at <==> i < |pages| && !q.Matches(pages[i])
  {
    if pages == [] {
      at := [];
    } else {
      var n := |pages| - 1;
      var front := KeptPositions(pages[..n], q);
      if q.Matches(pages[n]) {
        at := front;
        assert Without(pages, q) == Without(pages[..n], q);
      } else {
        at := front + [n];
        assert Without(pages, q) == Without(pages[..n], q) + [pages[n]];
        forall i: nat ensures i in at <==> i < |pages| && !q.Matches(pages[i]) {
          assert i in at <==> i in front || i == n;
        }
      }
    }
  }

  /** Delete covers the pages of the slug, DeleteLang those of slug and language. */
  lemma DeletionsKeepOrder(pages: seq<SourcePage>, slug: string, lang: string) returns (bySlug: seq<nat>, byLang: seq<nat>)
    ensures var left := Without(pages, BySlug(slug));
      && |bySlug| == |left|
      && (forall k :: 0 <= k < |left| ==> bySlug[k] < |pages| && left[k] == pages[bySlug[k]])
      && (forall k, l :: 0 <= k < l < |left| ==> bySlug[k] < bySlug[l])
      && (forall i: nat :: i in bySlug <==> i < |pages| && pages[i].slug != slug)
    ensures var left := Without(pages, SlotOf(slug, lang));
      && |byLang| == |left|
      && (forall k :: 0 <= k < |left| ==> byLang[k] < |pages| && left[k] == pages[byLang[k]])
      && (forall k, l :: 0 <= k < l < |left| ==> byLang[k] < byLang[l])
      && (forall i: nat :: i in byLang <==> i < |pages| && !(pages[i].slug == slug && pages[i].lang == lang))
  {
    bySlug := KeptPositions(pages, BySlug(slug));
    byLang := KeptPositions(pages, SlotOf(slug, lang));
  }

  /** An upsert takes the place of the last page with its slug and language, or the end. */
  lemma UpsertPlaces(pages: seq<SourcePage>, p: SourcePage, k: nat)
    requires k <= |pages|
    requires k < |pages| ==> pages[k].slug == p.slug && pages[k].lang == p.lang
    requires forall j :: 0 <= j < |pages| && pages[j].slug == p.slug && pages[j].lang == p.lang ==> j <= k < |pages|
    ensures With(pages, p) == if k < |pages| then pages[k := p] else pages + [p]
  {
    var slot := SlotOf(p.slug, p.lang);
    if k < |pages| {
      LastMatchIs(pages, slot, k);
    }
  }

  // ----- what the updates do to lookups -----

  predicate Disjoint(q: Query, r: Query) {
    q.slug != r.slug
    || (q.ByLang? && r.ByLang? && q.lang != r.lang)
    || (q.ByLang? && r.Default?) || (q.Default? && r.ByLang?)
  }

  /** Deleting empties the lookups it covers and leaves disjoint ones alone. */
  lemma {:induction false} DeleteAndScan(pages: seq<SourcePage>, q: Query, r: Query)
    ensures Disjoint(q, r) ==> Scan(Without(pages, q), r) == Scan(pages, r)
    ensures q == r || q == BySlug(r.slug) ==> Scan(Without(pages, q), r) == None
  {
    if pages != [] {
      var n := |pages| - 1;
      var init, p := pages[..n], pages[n];
      DeleteAndScan(init, q, r);
      LastMatchSnoc(init, p, r);
      assert pages == init + [p];
      LastMatchSnoc(Without(init, q), p, r);
      assert Without(pages, q) == if q.Matches(p) then Without(init, q) else Without(init, q) + [p];
      assert Disjoint(q, r) && q.Matches(p) ==> !r.Matches(p);
    }
  }

  /** Deleting one language leaves, under the bare slug, the last page of the others. */
  lemma {:induction false} DeleteLangKeepsOthers(pages: seq<SourcePage>, slug: string, lang: string)
    ensures var left := Without(pages, SlotOf(slug, lang));
      && (forall p :: p in left <==> p in pages && !(p.slug == slug && p.lang == lang))
      && (Scan(left, BySlug(slug)).None? <==> forall p <- pages :: p.slug == slug ==> p.lang == lang)
  {
    if pages != [] {
      var n := |pages| - 1;
      DeleteLangKeepsOthers(pages[..n], slug, lang);
      assert pages == pages[..n] + [pages[n]];
    }
    var left := Without(pages, SlotOf(slug, lang));
    if Scan(left, BySlug(slug)).None? {
      forall p <- pages | p !in left ensures p.slug == slug ==> p.lang == lang {
      }
    } else {
      assert left[LastMatch(left, BySlug(slug)).value] in left;
    }
  }

  /** Upsert answers its own lookup and changes no lookup of another slot or slug. */
  lemma UpsertAndScan(pages: seq<SourcePage>, p: SourcePage, r: Query)
    ensures Scan(With(pages, p), SlotOf(p.slug, p.lang)) == Some(p)
    ensures Disjoint(SlotOf(p.slug, p.lang), r) ==> Scan(With(pages, p), r) == Scan(pages, r)
    ensures Scan(With(pages, p), BySlug(p.slug)).Some?
  {
    var slot := SlotOf(p.slug, p.lang);
    var k := LastMatch(pages, slot);
    var pages' := With(pages, p);
    var at := if k.Some? then k.value else |pages|;
    LastMatchIs(pages', slot, at);
    assert BySlug(p.slug).Matches(pages'[at]);
    if Disjoint(slot, r) {
      assert !r.Matches(pages'[at]) && (at < |pages| ==> !r.Matches(pages[at]));
      var m := LastMatch(pages, r);
      if m.Some? {
        LastMatchIs(pages', r, m.value);
      } else {
        forall j | 0 <= j < |pages'| ensures !r.Matches(pages'[j]) {
          assert j != at ==> pages'[j] == pages[j];
        }
      }
    }
  }

  // ----- any sequence of updates, against a plain map -----

  datatype Update = Upsert(page: SourcePage) | Delete(slug: string) | DeleteLang(slug: string, lang: string)

  function Apply(pages: seq<SourcePage>, u: Update): seq<SourcePage> {
    match u
    case Upsert(p) => With(pages, p)
    case Delete(s) => Without(pages, BySlug(s))
    case DeleteLang(s, l) => Without(pages, SlotOf(s, l))
  }

  type Slots = map<(string, string), SourcePage>

  function ApplyMap(m: Slots, u: Update): Slots {
    match u
    case Upsert(p) => m[(p.slug, p.lang) := p]
    case Delete(s) => map k | k in m && k.0 != s :: m[k]
    case DeleteLang(s, l) => m - {(s, l)}
  }

  function Replay(pages: seq<SourcePage>, us: seq<Update>): seq<SourcePage> {
    if us == [] then pages else Apply(Replay(pages, us[..|us|-1]), us[|us|-1])
  }

  function ReplayMap(m: Slots, us: seq<Update>): Slots {
    if us == [] then m else ApplyMap(ReplayMap(m, us[..|us|-1]), us[|us|-1])
  }

  /** Whatever the updates, each (slug, language) lookup answers as a plain map would. */
  lemma {:induction false} IndexRefinesMap(pages: seq<SourcePage>, m: Slots, us: seq<Update>, slug: string, lang: string)
    requires forall s, l :: Scan(pages, SlotOf(s, l)) == Lookup(m, (s, l))
    ensures Scan(Replay(pages, us), SlotOf(slug, lang)) == Lookup(ReplayMap(m, us), (slug, lang))
  {
    if us != [] {
      IndexRefinesMap(pages, m, us[..|us|-1], slug, lang);
      var before := Replay(pages, us[..|us|-1]);
      match us[|us|-1]
      case Upsert(p) => UpsertAndScan(before, p, SlotOf(slug, lang));
      case Delete(s) => DeleteAndScan(before, BySlug(s), SlotOf(slug, lang));
      case DeleteLang(s, l) => DeleteAndScan(before, SlotOf(s, l), SlotOf(slug, lang));
    }
  }
}
