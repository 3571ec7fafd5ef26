/** The in-memory index of published pages: the directory walk that gives every
    canonical slug one occupant, and the position map kept through later updates. */
module SiteIndex {
  import opened Common

  /** A parsed HTML file: its path below the site root and the canonical slug it
      declares; an empty slug means it is not indexed. */
  datatype File = File(rel: string, slug: string, date: int, title: string)

  datatype Page = Page(slug: string, outputPath: string, title: string)

  datatype Entry = Entry(page: Page, date: int)

  function EntryOf(f: File): Entry {
    Entry(Page(f.slug, f.rel, f.title), f.date)
  }

  /** The slug a file's own path stands for (slugFromRel). */
  type Own = string -> string

  predicate Owner(own: Own, f: File, slug: string) {
    f.slug == slug && own(f.rel) == slug
  }

  // ----- who holds a slug -----

  /** The first file in walk order that genuinely owns the slug. */
  function FirstOwner(own: Own, files: seq<File>, slug: string): Option<File> {
    if files == [] then None
    else
      var r := FirstOwner(own, files[..|files|-1], slug);
      var f := files[|files|-1];
      if r.Some? then r else if Owner(own, f, slug) then Some(f) else None
  }

  /** The first file that declares the slug at all. */
  function FirstClaim(files: seq<File>, slug: string): Option<File> {
    if files == [] then None
    else
      var r := FirstClaim(files[..|files|-1], slug);
      var f := files[|files|-1];
      if r.Some? then r else if f.slug == slug then Some(f) else None
  }

  function Occupant(own: Own, files: seq<File>, slug: string): Option<File> {
    var owner := FirstOwner(own, files, slug);
    if owner.Some? then owner else FirstClaim(files, slug)
  }

  function Slugs(files: seq<File>): set<string> {
    set f <- files | f.slug != "" :: f.slug
  }

  /** Own slugs of the files whose canonical link points elsewhere. */
  function AliasKeys(own: Own, files: seq<File>): set<string> {
    set f <- files | f.slug != "" && own(f.rel) != f.slug :: own(f.rel)
  }

  /** Where the alias `key` may resolve to. */
  predicate AliasTarget(own: Own, files: seq<File>, key: string, target: string) {
    exists f <- files :: f.slug == target && f.slug != "" && own(f.rel) == key && own(f.rel) != f.slug
  }

  // ----- positions -----

  /** Each slug maps to its one position. */
  predicate Inverse(entries: seq<Entry>, bySlug: map<string, nat>) {
    && (forall k :: 0 <= k < |entries| ==> entries[k].page.slug in bySlug && bySlug[entries[k].page.slug] == k)
    && (forall s <- bySlug :: bySlug[s] < |entries| && entries[bySlug[s]].page.slug == s)
  }

  /** Who sits in the slot of `s` after `files`, and whether as an alias. */
  ghost predicate Slot(own: Own, files: seq<File>, entries: seq<Entry>, bySlug: map<string, nat>,
                       ownerIsAlias: map<string, bool>, s: string) {
    && (s in bySlug <==> s != "" && FirstClaim(files, s).Some?)
    && (s in ownerIsAlias ==> s in bySlug)
    && (s in bySlug ==>
          && bySlug[s] < |entries|
          && entries[bySlug[s]] == EntryOf(Occupant(own, files, s).value)
          && ((s in ownerIsAlias && ownerIsAlias[s]) <==> FirstOwner(own, files, s).None?))
  }

  ghost predicate Aliases(own: Own, files: seq<File>, aliases: map<string, string>) {
    && aliases.Keys == AliasKeys(own, files)
    && (forall key <- aliases :: AliasTarget(own, files, key, aliases[key]))
  }

  /** What the walk has built after `files`. */
  ghost predicate WalkState(own: Own, files: seq<File>, entries: seq<Entry>, bySlug: map<string, nat>,
                            aliases: map<string, string>, ownerIsAlias: map<string, bool>) {
    && Inverse(entries, bySlug)
    && (forall s :: Slot(own, files, entries, bySlug, ownerIsAlias, s))
    && Aliases(own, files, aliases)
  }

  lemma {:induction false} FirstClaimIs(files: seq<File>, slug: string)
    ensures FirstClaim(files, slug).None? <==> forall f <- files :: f.slug != slug
    ensures FirstClaim(files, slug).Some? ==> FirstClaim(files, slug).value in files && FirstClaim(files, slug).value.slug == slug
  {
    if files != [] {
      FirstClaimIs(files[..|files|-1], slug);
      assert files == files[..|files|-1] + [files[|files|-1]];
    }
  }

  lemma {:induction false} FirstOwnerIs(own: Own, files: seq<File>, slug: string)
    ensures FirstOwner(own, files, slug).None? <==> forall f <- files :: !Owner(own, f, slug)
    ensures FirstOwner(own, files, slug).Some? ==>
      FirstOwner(own, files, slug).value in files && Owner(own, FirstOwner(own, files, slug).value, slug)
  {
    if files != [] {
      FirstOwnerIs(own, files[..|files|-1], slug);
      assert files == files[..|files|-1] + [files[|files|-1]];
    }
  }

  /** One more file changes who holds its own declared slug and nothing else. */
  lemma OccupantStep(own: Own, files: seq<File>, f: File, slug: string)
    ensures FirstClaim(files + [f], slug) == if FirstClaim(files, slug).None? && f.slug == slug then Some(f) else FirstClaim(files, slug)
    ensures FirstOwner(own, files + [f], slug)
      == if FirstOwner(own, files, slug).None? && Owner(own, f, slug) then Some(f) else FirstOwner(own, files, slug)
  {
    assert (files + [f])[..|files|] == files;
  }

  lemma AliasStep(own: Own, files: seq<File>, f: File)
    ensures AliasKeys(own, files + [f])
      == AliasKeys(own, files) + if f.slug != "" && own(f.rel) != f.slug then {own(f.rel)} else {}
    ensures forall key, target :: AliasTarget(own, files, key, target) ==> AliasTarget(own, files + [f], key, target)
    ensures f.slug != "" && own(f.rel) != f.slug ==> AliasTarget(own, files + [f], own(f.rel), f.slug)
  {
    forall key, target | AliasTarget(own, files, key, target) ensures AliasTarget(own, files + [f], key, target) {
      var g :| g in files && g.slug == target && g.slug != "" && own(g.rel) == key && own(g.rel) != g.slug;
      assert g in files + [f];
    }
    assert f in files + [f];
  }

  // ----- the walk -----

  /** The other slots do not notice the file. */
  lemma OtherSlots(own: Own, files: seq<File>, f: File, entries: seq<Entry>, bySlug: map<string, nat>,
                   ownerIsAlias: map<string, bool>)
    requires forall s :: Slot(own, files, entries, bySlug, ownerIsAlias, s)
    ensures forall s :: s != f.slug || f.slug == "" ==> Slot(own, files + [f], entries, bySlug, ownerIsAlias, s)
  {
    forall s | s != f.slug || f.slug == "" ensures Slot(own, files + [f], entries, bySlug, ownerIsAlias, s) {
      OccupantStep(own, files, f, s);
      assert Slot(own, files, entries, bySlug, ownerIsAlias, s);
    }
  }

  /** A file whose slug is taken: it stays an alias, loses to the first owner, or
      demotes the alias that sits there. */
  method VisitTaken(own: Own, ghost files: seq<File>, f: File, entries0: seq<Entry>, bySlug: map<string, nat>,
                    aliases0: map<string, string>, ownerIsAlias0: map<string, bool>)
    returns (entries: seq<Entry>, aliases: map<string, string>, ownerIsAlias: map<string, bool>)
    requires WalkState(own, files, entries0, bySlug, aliases0, ownerIsAlias0)
    requires f.slug in bySlug
    ensures WalkState(own, files + [f], entries, bySlug, aliases, ownerIsAlias)
  {
    entries, aliases, ownerIsAlias := entries0, aliases0, ownerIsAlias0;
    OtherSlots(own, files, f, entries, bySlug, ownerIsAlias);
    OccupantStep(own, files, f, f.slug);
    assert Slot(own, files, entries, bySlug, ownerIsAlias, f.slug);
    AliasStep(own, files, f);
    if own(f.rel) != f.slug {
      aliases := aliases[own(f.rel) := f.slug];
      assert Slot(own, files + [f], entries, bySlug, ownerIsAlias, f.slug);
      return;
    }
    if !(f.slug in ownerIsAlias && ownerIsAlias[f.slug]) {
      assert Slot(own, files + [f], entries, bySlug, ownerIsAlias, f.slug);
      return;
    }
    var pos := bySlug[f.slug];
    var demoted := entries[pos];
    assert demoted == EntryOf(FirstClaim(files, f.slug).value);
    SquatterIsAlias(own, files, f.slug);
    aliases := aliases[own(demoted.page.outputPath) := f.slug];
    entries := entries[pos := EntryOf(f)];
    ownerIsAlias := ownerIsAlias[f.slug := false];
    forall s ensures Slot(own, files + [f], entries, bySlug, ownerIsAlias, s) {
      if s != f.slug {
        assert Slot(own, files + [f], entries0, bySlug, ownerIsAlias0, s);
      }
    }
  }

  lemma SquatterIsAlias(own: Own, files: seq<File>, slug: string)
    requires slug != "" && FirstClaim(files, slug).Some? && FirstOwner(own, files, slug).None?
    ensures var key := own(FirstClaim(files, slug).value.rel);
      key in AliasKeys(own, files) && AliasTarget(own, files, key, slug)
  {
    FirstClaimIs(files, slug);
    FirstOwnerIs(own, files, slug);
    assert !Owner(own, FirstClaim(files, slug).value, slug);
  }

  /** One file of the walk; the state is threaded through. */
  method VisitFile(own: Own, ghost files: seq<File>, f: File, entries0: seq<Entry>, bySlug0: map<string, nat>,
                   aliases0: map<string, string>, ownerIsAlias0: map<string, bool>)
    returns (entries: seq<Entry>, bySlug: map<string, nat>, aliases: map<string, string>, ownerIsAlias: map<string, bool>)
    requires WalkState(own, files, entries0, bySlug0, aliases0, ownerIsAlias0)
    ensures WalkState(own, files + [f], entries, bySlug, aliases, ownerIsAlias)
  {
    entries, bySlug, aliases, ownerIsAlias := entries0, bySlug0, aliases0, ownerIsAlias0;
    AliasStep(own, files, f);
    if f.slug == "" {
      OtherSlots(own, files, f, entries, bySlug, ownerIsAlias);
      return;
    }
    if f.slug in bySlug {
      entries, aliases, ownerIsAlias := VisitTaken(own, files, f, entries, bySlug, aliases, ownerIsAlias);
      return;
    }
    OtherSlots(own, files, f, entries, bySlug, ownerIsAlias);
    OccupantStep(own, files, f, f.slug);
    FirstClaimIs(files, f.slug);
    FirstOwnerIs(own, files, f.slug);
    assert Slot(own, files, entries, bySlug, ownerIsAlias, f.slug);
    if own(f.rel) != f.slug {
      aliases := aliases[own(f.rel) := f.slug];
      ownerIsAlias := ownerIsAlias[f.slug := true];
    }
    bySlug := bySlug[f.slug := |entries|];
    entries := entries + [EntryOf(f)];
    forall s ensures Slot(own, files + [f], entries, bySlug, ownerIsAlias, s) {
      if s != f.slug {
        assert Slot(own, files + [f], entries0, bySlug0, ownerIsAlias0, s);
      }
    }
  }

  // ----- display order -----

  /** Newest first, then by slug. */
  predicate Before(a: Entry, b: Entry) {
    a.date > b.date || (a.date == b.date && Less(a.page.slug, b.page.slug))
  }

  predicate InOrder(entries: seq<Entry>) {
    forall i, j :: 0 <= i < j < |entries| ==> Before(entries[i], entries[j])
  }

  predicate DistinctSlugs(entries: seq<Entry>) {
    forall i, j :: 0 <= i < j < |entries| ==> entries[i].page.slug != entries[j].page.slug
  }

  function InsertEntry(e: Entry, entries: seq<Entry>): seq<Entry> {
    if entries == [] || Before(e, entries[0]) then [e] + entries else [entries[0]] + InsertEntry(e, entries[1..])
  }

  /** What sort.SliceStable makes of entries with distinct slugs. */
  function SortEntries(entries: seq<Entry>): seq<Entry> {
    if entries == [] then [] else InsertEntry(entries[0], SortEntries(entries[1..]))
  }

  lemma {:induction false} InsertEntryOrders(e: Entry, entries: seq<Entry>)
    requires InOrder(entries) && forall x <- entries :: x.page.slug != e.page.slug
    ensures InOrder(InsertEntry(e, entries))
    ensures |InsertEntry(e, entries)| == |entries| + 1
    ensures forall x :: x in InsertEntry(e, entries) <==> x == e || x in entries
  {
    if entries != [] {
      LessTotal(e.page.slug, entries[0].page.slug);
      if Before(e, entries[0]) {
        forall k | 0 < k < |entries| ensures Before(e, entries[k]) {
          assert Before(entries[0], entries[k]);
          if e.date == entries[k].date {
            LessTransitive(e.page.slug, entries[0].page.slug, entries[k].page.slug);
          }
        }
      } else {
        InsertEntryOrders(e, entries[1..]);
        assert entries == [entries[0]] + entries[1..];
        var rest := InsertEntry(e, entries[1..]);
        forall k | 0 <= k < |rest| ensures Before(entries[0], rest[k]) {
          assert rest[k] in rest;
          if rest[k] != e {
            var m :| 0 <= m < |entries[1..]| && entries[1..][m] == rest[k];
            assert Before(entries[0], entries[m+1]);
          }
        }
      }
    }
  }

  lemma {:induction false} SortEntriesOrders(entries: seq<Entry>)
    requires DistinctSlugs(entries)
    ensures InOrder(SortEntries(entries))
    ensures |SortEntries(entries)| == |entries|
    ensures forall x :: x in SortEntries(entries) <==> x in entries
    ensures DistinctSlugs(SortEntries(entries))
  {
    if entries != [] {
      SortEntriesOrders(entries[1..]);
      forall x <- SortEntries(entries[1..]) ensures x.page.slug != entries[0].page.slug {
        var k :| 0 <= k < |entries[1..]| && entries[1..][k] == x;
        assert entries[k+1] == x;
      }
      InsertEntryOrders(entries[0], SortEntries(entries[1..]));
      assert entries == [entries[0]] + entries[1..];
      InOrderNoTies(SortEntries(entries), entries);
    }
  }

  /** Ordered entries that all come from a list with distinct slugs have distinct slugs. */
  lemma InOrderNoTies(sorted: seq<Entry>, entries: seq<Entry>)
    requires InOrder(sorted) && DistinctSlugs(entries)
    requires forall x <- sorted :: x in entries
    ensures DistinctSlugs(sorted)
  {
    forall i, j | 0 <= i < j < |sorted| ensures sorted[i].page.slug != sorted[j].page.slug {
      assert Before(sorted[i], sorted[j]);
      if sorted[i].page.slug == sorted[j].page.slug {
        assert sorted[i] in entries && sorted[j] in entries;
        var a :| 0 <= a < |entries| && entries[a] == sorted[i];
        var b :| 0 <= b < |entries| && entries[b] == sorted[j];
        assert a == b;
        LessTotal(sorted[i].page.slug, sorted[i].page.slug);
      }
    }
  }

  // ----- lookups as a linear scan -----

  function Find(entries: seq<Entry>, slug: string): Option<Page> {
    if entries == [] then None
    else if entries[0].page.slug == slug then Some(entries[0].page)
    else Find(entries[1..], slug)
  }

  function Without(entries: seq<Entry>, slug: string): seq<Entry> {
    if entries == [] then []
    else if entries[0].page.slug == slug then Without(entries[1..], slug)
    else [entries[0]] + Without(entries[1..], slug)
  }

  /** Replace the page in place, keeping its date, or append it undated. */
  function With(entries: seq<Entry>, p: Page): seq<Entry> {
    if entries == [] then [Entry(p, 0)]
    else if entries[0].page.slug == p.slug then [entries[0].(page := p)] + entries[1..]
    else [entries[0]] + With(entries[1..], p)
  }

  lemma {:induction false} FindAt(entries: seq<Entry>, k: nat)
    requires k < |entries| && DistinctSlugs(entries)
    ensures Find(entries, entries[k].page.slug) == Some(entries[k].page)
  {
    if k > 0 {
      FindAt(entries[1..], k - 1);
    }
  }

  lemma {:induction false} FindNone(entries: seq<Entry>, slug: string)
    ensures Find(entries, slug).None? <==> forall e <- entries :: e.page.slug != slug
  {
    if entries != [] {
      FindNone(entries[1..], slug);
      assert entries == [entries[0]] + entries[1..];
    }
  }

  lemma {:induction false} WithoutAbsent(entries: seq<Entry>, slug: string)
    requires forall e <- entries :: e.page.slug != slug
    ensures Without(entries, slug) == entries
  {
    if entries != [] {
      WithoutAbsent(entries[1..], slug);
    }
  }

  lemma {:induction false} WithoutAt(entries: seq<Entry>, k: nat)
    requires k < |entries| && DistinctSlugs(entries)
    ensures Without(entries, entries[k].page.slug) == entries[..k] + entries[k+1..]
  {
    if k == 0 {
      forall e <- entries[1..] ensures e.page.slug != entries[0].page.slug {
        var j :| 0 <= j < |entries[1..]| && entries[1..][j] == e;
        assert entries[j+1] == e;
      }
      WithoutAbsent(entries[1..], entries[0].page.slug);
    } else {
      WithoutAt(entries[1..], k - 1);
      assert entries[1..][..k-1] == entries[1..k] && entries[1..][k..] == entries[k+1..];
      assert entries[..k] == [entries[0]] + entries[1..k];
    }
  }

  lemma {:induction false} WithAt(entries: seq<Entry>, p: Page, k: nat)
    requires k < |entries| && DistinctSlugs(entries) && entries[k].page.slug == p.slug
    ensures With(entries, p) == entries[k := entries[k].(page := p)]
  {
    if k > 0 {
      WithAt(entries[1..], p, k - 1);
    }
  }

  lemma {:induction false} WithAbsent(entries: seq<Entry>, p: Page)
    requires forall e <- entries :: e.page.slug != p.slug
    ensures With(entries, p) == entries + [Entry(p, 0)]
  {
    if entries != [] {
      WithAbsent(entries[1..], p);
    }
  }

  lemma InverseDistinct(entries: seq<Entry>, bySlug: map<string, nat>)
    requires Inverse(entries, bySlug)
    ensures DistinctSlugs(entries)
    ensures forall s :: s in bySlug <==> Find(entries, s).Some?
    ensures forall s <- bySlug :: Find(entries, s) == Some(entries[bySlug[s]].page)
  {
    forall s ensures s in bySlug <==> Find(entries, s).Some? {
      FindNone(entries, s);
      if s in bySlug {
        assert entries[bySlug[s]] in entries;
      }
    }
    forall s <- bySlug ensures Find(entries, s) == Some(entries[bySlug[s]].page) {
      FindAt(entries, bySlug[s]);
    }
  }

  /** The position map once the entry at `pos` is gone. */
  lemma ShiftDown(entries: seq<Entry>, bySlug: map<string, nat>, pos: nat) returns (target: map<string, nat>)
    requires Inverse(entries, bySlug) && pos < |entries|
    ensures target.Keys == bySlug.Keys - {entries[pos].page.slug}
    ensures forall s <- target :: target[s] < pos ==> bySlug[s] == target[s]
    ensures Inverse(entries[..pos] + entries[pos+1..], target)
  {
    target := map s | s in bySlug && s != entries[pos].page.slug :: if bySlug[s] > pos then bySlug[s] - 1 else bySlug[s];
    var rest := entries[..pos] + entries[pos+1..];
    forall k | 0 <= k < |rest| ensures rest[k].page.slug in target && target[rest[k].page.slug] == k {
      assert rest[k] == entries[if k < pos then k else k + 1];
    }
    forall s <- target ensures target[s] < |rest| && rest[target[s]].page.slug == s {
      assert bySlug[s] != pos;
      assert rest[target[s]] == entries[bySlug[s]];
    }
  }

  /** The loop that rewrites the positions behind the removed entry. */
  method Reposition(entries: seq<Entry>, bySlug: map<string, nat>, pos: nat, ghost target: map<string, nat>)
    returns (r: map<string, nat>)
    requires pos <= |entries| && Inverse(entries, target) && bySlug.Keys == target.Keys
    requires forall s <- target :: target[s] < pos ==> bySlug[s] == target[s]
    ensures r == target
  {
    r := bySlug;
    for i := pos to |entries|
      invariant r.Keys == target.Keys
      invariant forall s <- target :: target[s] < i ==> r[s] == target[s]
    {
      r := r[entries[i].page.slug := i];
    }
  }

  class SiteIndex {
    var entries: seq<Entry>
    var bySlug: map<string, nat>
    var aliasSlugs: map<string, string>

    /** The walk the index was last loaded from. */
    ghost var own: Own
    ghost var walked: seq<File>

    ghost predicate Valid()
      reads this
    {
      Inverse(entries, bySlug) && Aliases(own, walked, aliasSlugs)
    }

    constructor ()
      ensures Valid() && entries == [] && aliasSlugs == map[]
    {
      entries, bySlug, aliasSlugs := [], map[], map[];
      own, walked := (rel => ""), [];
    }

    /** NewIndex followed by the swap of Reload: nothing changes on an error. */
    method Load(ownSlug: Own, files: seq<File>, maxEntries: int) returns (ok: bool)
      requires Valid()
      modifies this
      ensures Valid()
      ensures ok <==> forall i :: 0 <= i < |files| ==> |Slugs(files[..i])| < if maxEntries <= 0 then 5000 else maxEntries
      ensures !ok ==> entries == old(entries) && bySlug == old(bySlug) && aliasSlugs == old(aliasSlugs)
      ensures !ok ==> own == old(own) && walked == old(walked)
      ensures ok ==> own == ownSlug && walked == files
      ensures ok ==> forall i, j :: 0 <= i < j < |entries| ==>
        && entries[i].page.slug != entries[j].page.slug
        && (entries[i].date > entries[j].date
            || (entries[i].date == entries[j].date && Less(entries[i].page.slug, entries[j].page.slug)))
      ensures ok ==> forall e :: e in entries <==> IsEntry(ownSlug, files, e)
      ensures ok ==> forall e :: e in entries <==> exists k: nat :: k < |files| && Carries(ownSlug, files, k, e)
      ensures ok ==> aliasSlugs.Keys == AliasKeys(ownSlug, files)
      ensures ok ==> forall key <- aliasSlugs :: AliasTarget(ownSlug, files, key, aliasSlugs[key])
    {
      var es: seq<Entry>, at: map<string, nat>, aliases: map<string, string>, ownerIsAlias: map<string, bool> := [], map[], map[], map[];
      for i := 0 to |files|
        invariant WalkState(ownSlug, files[..i], es, at, aliases, ownerIsAlias)
        invariant forall k :: 0 <= k < i ==> |Slugs(files[..k])| < Limit(maxEntries)
        invariant entries == old(entries) && bySlug == old(bySlug) && aliasSlugs == old(aliasSlugs)
        invariant own == old(own) && walked == old(walked)
      {
        EntryCount(ownSlug, files[..i], es, at, aliases, ownerIsAlias);
        if |es| >= Limit(maxEntries) {
          return false;
        }
        assert files[..i] + [files[i]] == files[..i+1];
        es, at, aliases, ownerIsAlias := VisitFile(ownSlug, files[..i], files[i], es, at, aliases, ownerIsAlias);
      }
      assert files[..|files|] == files;
      WalkEntries(ownSlug, files, es, at, aliases, ownerIsAlias);
      SortEntriesOrders(es);
      es := SortEntries(es);
      EntriesCarry(ownSlug, files);
      at := Positions(es);
      entries, bySlug, aliasSlugs := es, at, aliases;
      own, walked := ownSlug, files;
      return true;
    }

    method RemoveBySlug(slug: string)
      requires Valid()
      modifies this`entries, this`bySlug
      ensures Valid()
      ensures entries == Without(old(entries), slug)
    {
      InverseDistinct(entries, bySlug);
      if slug in bySlug {
        var pos := bySlug[slug];
        WithoutAt(entries, pos);
        ghost var target := ShiftDown(entries, bySlug, pos);
        entries := entries[..pos] + entries[pos+1..];
        var shifted := Reposition(entries, bySlug - {slug}, pos, target);
        bySlug := shifted;
      } else {
        FindNone(entries, slug);
        WithoutAbsent(entries, slug);
      }
    }

    method UpsertPage(p: Page)
      requires Valid()
      modifies this`entries, this`bySlug
      ensures Valid()
      ensures entries == With(old(entries), p)
    {
      InverseDistinct(entries, bySlug);
      if p.slug in bySlug {
        var pos := bySlug[p.slug];
        WithAt(entries, p, pos);
        entries := entries[pos := entries[pos].(page := p)];
      } else {
        FindNone(entries, p.slug);
        WithAbsent(entries, p);
        bySlug := bySlug[p.slug := |entries|];
        entries := entries + [Entry(p, 0)];
      }
    }

    method GetBySlug(slug: string) returns (r: Option<Page>)
      requires Valid()
      ensures r == if slug == "" then None else Find(entries, slug)
    {
      if slug == "" {
        return None;
      }
      InverseDistinct(entries, bySlug);
      if slug !in bySlug {
        return None;
      }
      return Some(entries[bySlug[slug]].page);
    }

    /** An answer exactly for the own slug of a walked file that declares another one, and
        the answer is a slug that such a file declares. */
    method ResolveAlias(slug: string) returns (r: Option<string>)
      requires Valid()
      ensures r.Some? <==> slug != "" && exists f <- walked :: f.slug != "" && own(f.rel) == slug && f.slug != slug
      ensures r.Some? ==> exists f <- walked :: own(f.rel) == slug && f.slug == r.value && f.slug != slug
    {
      if slug == "" || slug !in aliasSlugs {
        return None;
      }
      return Some(aliasSlugs[slug]);
    }
  }

  function Limit(maxEntries: int): nat { if maxEntries <= 0 then 5000 else maxEntries }

  /** The entry of a declared slug is its occupant's. */
  predicate IsEntry(own: Own, files: seq<File>, e: Entry) {
    var o := Occupant(own, files, e.page.slug);
    e.page.slug != "" && o.Some? && e == EntryOf(o.value)
  }

  /** The entry is that of file number `k`, which holds the slug it declares: the first
      one to declare it under its own path, or without any such file the first to declare
      it at all. It has the file's path, title and date. */
  ghost predicate Carries(own: Own, files: seq<File>, k: nat, e: Entry)
    requires k < |files|
  {
    var f := files[k];
    && f.slug != "" && e == Entry(Page(f.slug, f.rel, f.title), f.date)
    && (if own(f.rel) == f.slug then forall j :: 0 <= j < k ==> files[j].slug != f.slug || own(files[j].rel) != f.slug
        else (forall j :: 0 <= j < k ==> files[j].slug != f.slug) && forall g <- files :: g.slug == f.slug ==> own(g.rel) != f.slug)
  }

  lemma {:induction false} FirstClaimAt(files: seq<File>, k: nat)
    requires k < |files| && forall j :: 0 <= j < k ==> files[j].slug != files[k].slug
    ensures FirstClaim(files, files[k].slug) == Some(files[k])
  {
    var front := files[..|files|-1];
    if k < |front| {
      FirstClaimAt(front, k);
    } else {
      FirstClaimIs(front, files[k].slug);
    }
  }

  lemma {:induction false} FirstOwnerAt(own: Own, files: seq<File>, k: nat)
    requires k < |files| && own(files[k].rel) == files[k].slug
    requires forall j :: 0 <= j < k ==> files[j].slug != files[k].slug || own(files[j].rel) != files[k].slug
    ensures FirstOwner(own, files, files[k].slug) == Some(files[k])
  {
    var front := files[..|files|-1];
    if k < |front| {
      FirstOwnerAt(own, front, k);
    } else {
      FirstOwnerIs(own, front, files[k].slug);
    }
  }

  /** The first file of the list with this slug, of those that are genuine owners if
      `owner` is set. */
  lemma FirstWith(own: Own, files: seq<File>, slug: string, owner: bool) returns (k: nat)
    requires exists f <- files :: f.slug == slug && (owner ==> own(f.rel) == slug)
    ensures k < |files| && files[k].slug == slug && (owner ==> own(files[k].rel) == slug)
    ensures forall j :: 0 <= j < k ==> files[j].slug != slug || (owner && own(files[j].rel) != slug)
    decreases |files|
  {
    var m :| 0 <= m < |files| && files[m].slug == slug && (owner ==> own(files[m].rel) == slug);
    if exists f <- files[..m] :: f.slug == slug && (owner ==> own(f.rel) == slug) {
      k := FirstWith(own, files[..m], slug, owner);
    } else {
      k := m;
      forall j | 0 <= j < m ensures files[j].slug != slug || (owner && own(files[j].rel) != slug) {
        assert files[j] in files[..m];
      }
    }
  }

  lemma EntriesCarry(own: Own, files: seq<File>)
    ensures forall e :: IsEntry(own, files, e) <==> exists k: nat :: k < |files| && Carries(own, files, k, e)
  {
    forall e ensures IsEntry(own, files, e) <==> exists k: nat :: k < |files| && Carries(own, files, k, e) {
      if k: nat :| k < |files| && Carries(own, files, k, e) {
        FirstOwnerIs(own, files, files[k].slug);
        if own(files[k].rel) == files[k].slug {
          FirstOwnerAt(own, files, k);
        } else {
          FirstClaimAt(files, k);
        }
      }
      if IsEntry(own, files, e) {
        var k := HolderOf(own, files, e);
      }
    }
  }

  lemma HolderOf(own: Own, files: seq<File>, e: Entry) returns (k: nat)
    requires IsEntry(own, files, e)
    ensures k < |files| && Carries(own, files, k, e)
  {
    var slug := e.page.slug;
    FirstOwnerIs(own, files, slug);
    FirstClaimIs(files, slug);
    if FirstOwner(own, files, slug).Some? {
      k := FirstWith(own, files, slug, true);
      FirstOwnerAt(own, files, k);
    } else {
      k := FirstWith(own, files, slug, false);
      FirstClaimAt(files, k);
      assert forall g <- files :: !Owner(own, g, slug);
    }
  }

  lemma WalkEntries(own: Own, files: seq<File>, entries: seq<Entry>, bySlug: map<string, nat>,
                    aliases: map<string, string>, ownerIsAlias: map<string, bool>)
    requires WalkState(own, files, entries, bySlug, aliases, ownerIsAlias)
    ensures DistinctSlugs(entries)
    ensures forall e :: e in entries <==> IsEntry(own, files, e)
  {
    InverseDistinct(entries, bySlug);
    forall e ensures e in entries <==> IsEntry(own, files, e) {
      assert Slot(own, files, entries, bySlug, ownerIsAlias, e.page.slug);
      FirstClaimIs(files, e.page.slug);
      FirstOwnerIs(own, files, e.page.slug);
      if IsEntry(own, files, e) {
        assert entries[bySlug[e.page.slug]] == e;
      }
    }
  }

  /** One entry per distinct declared slug. */
  lemma EntryCount(own: Own, files: seq<File>, entries: seq<Entry>, bySlug: map<string, nat>,
                   aliases: map<string, string>, ownerIsAlias: map<string, bool>)
    requires WalkState(own, files, entries, bySlug, aliases, ownerIsAlias)
    ensures |entries| == |Slugs(files)|
  {
    forall s ensures s in bySlug.Keys <==> s in Slugs(files) {
      assert Slot(own, files, entries, bySlug, ownerIsAlias, s);
      FirstClaimIs(files, s);
    }
    assert bySlug.Keys == Slugs(files);
    InverseDistinct(entries, bySlug);
    CountSlugs(entries);
    assert bySlug.Keys == set e <- entries :: e.page.slug;
  }

  lemma {:induction false} CountSlugs(entries: seq<Entry>)
    requires DistinctSlugs(entries)
    ensures |set e <- entries :: e.page.slug| == |entries|
  {
    if entries != [] {
      var n := |entries| - 1;
      CountSlugs(entries[..n]);
      assert entries == entries[..n] + [entries[n]];
      assert (set e <- entries :: e.page.slug) == (set e <- entries[..n] :: e.page.slug) + {entries[n].page.slug};
      forall e <- entries[..n] ensures e.page.slug != entries[n].page.slug {
      }
    }
  }

  /** The position map rebuilt after sorting. */
  method Positions(entries: seq<Entry>) returns (bySlug: map<string, nat>)
    requires DistinctSlugs(entries)
    ensures Inverse(entries, bySlug)
  {
    bySlug := map[];
    for i := 0 to |entries|
      invariant forall k :: 0 <= k < i ==> entries[k].page.slug in bySlug && bySlug[entries[k].page.slug] == k
      invariant forall s <- bySlug :: bySlug[s] < i && entries[bySlug[s]].page.slug == s
    {
      bySlug := bySlug[entries[i].page.slug := i];
    }
  }

  // ----- walk order -----

  /** The files that may end up holding the slug: its genuine owners if it has any,
      otherwise every file declaring it. */
  ghost predicate Candidate(own: Own, files: seq<File>, slug: string, f: File) {
    && f in files && f.slug == slug
    && (Owner(own, f, slug) || forall g <- files :: !Owner(own, g, slug))
  }

  lemma OccupantIsCandidate(own: Own, files: seq<File>, slug: string)
    ensures Occupant(own, files, slug).None? <==> forall f <- files :: f.slug != slug
    ensures Occupant(own, files, slug).Some? ==> Candidate(own, files, slug, Occupant(own, files, slug).value)
  {
    FirstClaimIs(files, slug);
    FirstOwnerIs(own, files, slug);
  }

  /** A candidate walked first takes the slug and keeps it. */
  lemma {:induction false} FirstCandidateWins(own: Own, f: File, rest: seq<File>, slug: string)
    requires Candidate(own, [f] + rest, slug, f)
    ensures Occupant(own, [f] + rest, slug) == Some(f)
  {
    FirstOwnerIs(own, [f] + rest, slug);
    FirstOfFront(own, f, rest, slug);
  }

  lemma {:induction false} FirstOfFront(own: Own, f: File, rest: seq<File>, slug: string)
    requires f.slug == slug
    ensures FirstClaim([f] + rest, slug) == Some(f)
    ensures Owner(own, f, slug) ==> FirstOwner(own, [f] + rest, slug) == Some(f)
    decreases |rest|
  {
    if rest == [] {
      assert ([f] + rest)[..0] == [];
    } else {
      FirstOfFront(own, f, rest[..|rest|-1], slug);
      assert ([f] + rest)[..|rest|] == [f] + rest[..|rest|-1];
    }
  }

  /** Every walk order gives a declared slug the same occupant exactly when it has only
      one candidate; in particular when one file alone genuinely owns it. */
  lemma OccupantIndependentOfOrder(own: Own, files: seq<File>, slug: string)
    requires exists f <- files :: f.slug == slug
    ensures (forall other: seq<File> :: multiset(other) == multiset(files) ==>
               Occupant(own, other, slug) == Occupant(own, files, slug))
      <==> (forall f, g :: Candidate(own, files, slug, f) && Candidate(own, files, slug, g) ==> f == g)
  {
    if forall f, g :: Candidate(own, files, slug, f) && Candidate(own, files, slug, g) ==> f == g {
      forall other: seq<File> | multiset(other) == multiset(files)
        ensures Occupant(own, other, slug) == Occupant(own, files, slug)
      {
        SameFiles(files, other);
        OccupantIsCandidate(own, files, slug);
        OccupantIsCandidate(own, other, slug);
        assert Candidate(own, files, slug, Occupant(own, other, slug).value);
      }
    } else {
      var f, g :| Candidate(own, files, slug, f) && Candidate(own, files, slug, g) && f != g;
      var h := if Occupant(own, files, slug) == Some(f) then g else f;
      var other := MoveToFront(files, h);
      SameFiles(files, [h] + other);
      assert Candidate(own, [h] + other, slug, h);
      FirstCandidateWins(own, h, other, slug);
      assert multiset([h] + other) == multiset(files);
    }
  }

  lemma SameFiles(files: seq<File>, other: seq<File>)
    requires multiset(files) == multiset(other)
    ensures forall f :: f in files <==> f in other
  {
    forall f ensures f in files <==> f in other {
      assert f in files <==> f in multiset(files);
      assert f in other <==> f in multiset(other);
    }
  }

  lemma MoveToFront(files: seq<File>, f: File) returns (rest: seq<File>)
    requires f in files
    ensures multiset([f] + rest) == multiset(files)
  {
    var k :| 0 <= k < |files| && files[k] == f;
    rest := files[..k] + files[k+1..];
    assert files == files[..k] + [files[k]] + files[k+1..];
  }

  // ----- updates against a finite map -----

  datatype Update = Remove(slug: string) | Upsert(page: Page)

  function Apply(entries: seq<Entry>, u: Update): seq<Entry> {
    match u
    case Remove(slug) => Without(entries, slug)
    case Upsert(page) => With(entries, page)
  }

  function ApplyAll(entries: seq<Entry>, us: seq<Update>): seq<Entry>
    decreases |us|
  {
    if us == [] then entries else ApplyAll(Apply(entries, us[0]), us[1..])
  }

  /** The same updates on a plain map from slug to page. */
  function MapAll(m: map<string, Page>, us: seq<Update>): map<string, Page>
    decreases |us|
  {
    if us == [] then m
    else MapAll(if us[0].Remove? then m - {us[0].slug} else m[us[0].page.slug := us[0].page], us[1..])
  }

  lemma {:induction false} WithoutFinds(entries: seq<Entry>, slug: string, x: string)
    ensures Find(Without(entries, slug), x) == if x == slug then None else Find(entries, x)
  {
    if entries != [] {
      WithoutFinds(entries[1..], slug, x);
    }
  }

  lemma {:induction false} WithFinds(entries: seq<Entry>, p: Page, x: string)
    ensures Find(With(entries, p), x) == if x == p.slug then Some(p) else Find(entries, x)
  {
    if entries != [] {
      WithFinds(entries[1..], p, x);
    }
  }

  /** After any updates a scan of the entries finds what a map would hold. */
  lemma {:induction false} IndexRefinesMap(entries: seq<Entry>, m: map<string, Page>, us: seq<Update>, x: string)
    requires forall s :: Find(entries, s) == Lookup(m, s)
    ensures Find(ApplyAll(entries, us), x) == Lookup(MapAll(m, us), x)
    decreases |us|
  {
    if us != [] {
      var entries' := Apply(entries, us[0]);
      var m' := if us[0].Remove? then m - {us[0].slug} else m[us[0].page.slug := us[0].page];
      forall s ensures Find(entries', s) == Lookup(m', s) {
        match us[0]
        case Remove(slug) => WithoutFinds(entries, slug, s);
        case Upsert(p) => WithFinds(entries, p, s);
      }
      IndexRefinesMap(entries', m', us[1..], x);
    }
  }
}
