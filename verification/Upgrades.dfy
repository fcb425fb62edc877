/**
 Quality tiers (app/quality.py) and the upgrade search built on them
 (app/api/routes_wanted.py). What could be inferred from a name is an input.
 */
module Upgrades {
  import opened Options

  datatype Inferred = Inferred(
    container: Option<string>,
    codec: Option<string>,
    bitrate: Option<int>,
    chapters: Option<bool>)

  datatype ChapterExpectation = Required | Preferred | NotRequired

  datatype Definition = Definition(
    id: string,
    container: string,
    codec: string,
    minBitrate: int,
    maxBitrate: int,
    chapters: ChapterExpectation)

  datatype Profile = Profile(
    allowedFormats: seq<string>,
    qualityIds: seq<string>,
    cutoffQualityId: string,
    upgradeAllowed: bool)

  datatype FitStatus = TopTier | Accepted | BelowCutoff | Rejected | Unknown

  datatype Fit = Fit(inferred: Inferred, matched: Option<string>, status: FitStatus)

  // ---------- matching a tier ----------

  /** `{d.id: d for d in definitions}.get(id)`: the last definition with this id. */
  function DefinitionById(definitions: seq<Definition>, id: string): Option<Definition> {
    if definitions == [] then None
    else if definitions[|definitions| - 1].id == id then Some(definitions[|definitions| - 1])
    else DefinitionById(definitions[..|definitions| - 1], id)
  }

  predicate DefinitionFits(inferred: Inferred, d: Definition) {
    && inferred.container == Some(d.container)
    && (inferred.codec.Some? ==> inferred.codec.value == d.codec)
    && (inferred.bitrate.Some? ==> d.minBitrate <= inferred.bitrate.value <= d.maxBitrate)
    && (d.chapters.Required? ==> inferred.chapters == Some(true))
  }

  /** `ids.index(x)` */
  function IndexOf(ids: seq<string>, x: string): (i: nat)
    requires x in ids
    ensures i < |ids| && ids[i] == x && forall j :: 0 <= j < i ==> ids[j] != x
  {
    if ids[0] == x then 0 else 1 + IndexOf(ids[1..], x)
  }

  function CutoffIndex(profile: Profile): int {
    if profile.cutoffQualityId in profile.qualityIds then IndexOf(profile.qualityIds, profile.cutoffQualityId)
    else |profile.qualityIds| - 1
  }

  predicate TierFits(inferred: Inferred, profile: Profile, definitions: seq<Definition>, i: nat)
    requires i < |profile.qualityIds|
  {
    var d := DefinitionById(definitions, profile.qualityIds[i]);
    d.Some? && DefinitionFits(inferred, d.value)
  }

  /** The enumeration of `evaluate_quality_for_profile` from tier `i` on. */
  function FirstTier(inferred: Inferred, profile: Profile, definitions: seq<Definition>, i: nat): (t: Option<nat>)
    requires i <= |profile.qualityIds|
    ensures t.Some? ==> i <= t.value < |profile.qualityIds| && TierFits(inferred, profile, definitions, t.value)
    ensures forall k :: i <= k < (if t.Some? then t.value else |profile.qualityIds|) ==>
      !TierFits(inferred, profile, definitions, k)
    decreases |profile.qualityIds| - i
  {
    if i == |profile.qualityIds| then None
    else if TierFits(inferred, profile, definitions, i) then Some(i)
    else FirstTier(inferred, profile, definitions, i + 1)
  }

  function Evaluate(inferred: Inferred, profile: Profile, definitions: seq<Definition>): Fit {
    if inferred.container.None? then Fit(inferred, None, Unknown)
    else
      var tier := FirstTier(inferred, profile, definitions, 0);
      if tier.Some? then
        Fit(inferred, Some(profile.qualityIds[tier.value]),
            if tier.value == 0 then TopTier
            else if tier.value <= CutoffIndex(profile) then Accepted
            else BelowCutoff)
      else if inferred.container.value in profile.allowedFormats then Fit(inferred, None, Accepted)
      else Fit(inferred, None, Rejected)
  }

  /** `quality_ids.index(matched)`, when there is a match. */
  function TierIndex(fit: Fit, profile: Profile): Option<nat> {
    if fit.matched.Some? && fit.matched.value in profile.qualityIds then
      Some(IndexOf(profile.qualityIds, fit.matched.value))
    else None
  }

  /**
   A verdict in terms of the profile: the tier is the first fitting one (ids may repeat),
   "below cutoff" means exactly a tier after the cutoff, and without a tier the allowed formats
   decide.
   */
  lemma EvaluateMeans(inferred: Inferred, profile: Profile, definitions: seq<Definition>)
    ensures var fit := Evaluate(inferred, profile, definitions); var tier := TierIndex(fit, profile);
      && tier == FirstTier(inferred, profile, definitions, 0)
      && (fit.status.TopTier? <==> tier == Some(0))
      && (fit.status.BelowCutoff? <==> tier.Some? && tier.value > CutoffIndex(profile))
      && (fit.status.Accepted? <==>
        (tier.Some? && 0 < tier.value <= CutoffIndex(profile)) || (tier.None? && AllowedFormat(inferred, profile)))
  {
    var tier := FirstTier(inferred, profile, definitions, 0);
    if tier.Some? {
      assert inferred.container.Some?;
      var first := IndexOf(profile.qualityIds, profile.qualityIds[tier.value]);
      assert TierFits(inferred, profile, definitions, first);
    }
  }

  predicate AllowedFormat(inferred: Inferred, profile: Profile) {
    inferred.container.Some? && inferred.container.value in profile.allowedFormats
  }

  // ---------- the same on the fields alone ----------

  /**
   What is known agrees with the definition. An unknown codec or bitrate is no obstacle, an
   unknown container is one, and required chapters must be positively known.
   */
  predicate Agrees(inferred: Inferred, d: Definition) {
    && inferred.container.Some? && inferred.container.value == d.container
    && (inferred.codec.None? || inferred.codec.value == d.codec)
    && (inferred.bitrate.None? || (inferred.bitrate.value >= d.minBitrate && inferred.bitrate.value <= d.maxBitrate))
    && (d.chapters == Required ==> inferred.chapters.Some? && inferred.chapters.value)
  }

  /** The last definition with the id of tier `k` agrees. */
  ghost predicate SuitsTier(inferred: Inferred, profile: Profile, definitions: seq<Definition>, k: nat)
    requires k < |profile.qualityIds|
  {
    exists i :: 0 <= i < |definitions| && definitions[i].id == profile.qualityIds[k] && Agrees(inferred, definitions[i])
             && forall j :: i < j < |definitions| ==> definitions[j].id != profile.qualityIds[k]
  }

  /** Tier `k` is the best that suits. */
  ghost predicate HasTier(inferred: Inferred, profile: Profile, definitions: seq<Definition>, k: nat) {
    && k < |profile.qualityIds| && SuitsTier(inferred, profile, definitions, k)
    && forall j :: 0 <= j < k ==> !SuitsTier(inferred, profile, definitions, j)
  }

  ghost predicate NoTier(inferred: Inferred, profile: Profile, definitions: seq<Definition>) {
    forall k :: 0 <= k < |profile.qualityIds| ==> !SuitsTier(inferred, profile, definitions, k)
  }

  /** The cutoff tier comes before tier `k`; a cutoff the profile does not list comes before none. */
  predicate AfterCutoff(profile: Profile, k: nat)
    requires k < |profile.qualityIds|
  {
    exists j :: 0 <= j < k && profile.qualityIds[j] == profile.cutoffQualityId
  }

  lemma {:induction false} LastWithId(definitions: seq<Definition>, id: string)
    ensures var d := DefinitionById(definitions, id);
      if d.Some? then exists i :: 0 <= i < |definitions| && definitions[i] == d.value && d.value.id == id
                               && forall j :: i < j < |definitions| ==> definitions[j].id != id
      else forall i :: 0 <= i < |definitions| ==> definitions[i].id != id
  {
    if definitions == [] {
      assert DefinitionById(definitions, id) == None;
    } else {
      var n := |definitions| - 1;
      assert forall i :: 0 <= i < n ==> definitions[..n][i] == definitions[i];
      LastWithId(definitions[..n], id);
      var d := DefinitionById(definitions, id);
      if definitions[n].id == id {
        assert definitions[n] == d.value;
      } else if d.Some? {
        var i :| 0 <= i < n && definitions[..n][i] == d.value && d.value.id == id
          && forall j :: i < j < n ==> definitions[..n][j].id != id;
        assert definitions[i] == d.value;
        assert forall j :: i < j < n ==> definitions[j] == definitions[..n][j];
      }
    }
  }

  lemma TierFitsIs(inferred: Inferred, profile: Profile, definitions: seq<Definition>, k: nat)
    requires k < |profile.qualityIds|
    ensures TierFits(inferred, profile, definitions, k) <==> SuitsTier(inferred, profile, definitions, k)
  {
    LastWithId(definitions, profile.qualityIds[k]);
    assert forall d :: DefinitionFits(inferred, d) <==> Agrees(inferred, d);
    hide Agrees, DefinitionFits;
  }

  lemma AfterCutoffIs(profile: Profile, k: nat)
    requires k < |profile.qualityIds|
    ensures k > CutoffIndex(profile) <==> AfterCutoff(profile, k)
  {
  }

  lemma TierIndexIs(inferred: Inferred, profile: Profile, definitions: seq<Definition>)
    ensures var tier := TierIndex(Evaluate(inferred, profile, definitions), profile);
      && (tier.None? <==> NoTier(inferred, profile, definitions))
      && (forall k: nat :: tier == Some(k) <==> HasTier(inferred, profile, definitions, k))
  {
    EvaluateMeans(inferred, profile, definitions);
    hide SuitsTier, TierFits;
    forall k | 0 <= k < |profile.qualityIds|
      ensures TierFits(inferred, profile, definitions, k) <==> SuitsTier(inferred, profile, definitions, k)
    {
      TierFitsIs(inferred, profile, definitions, k);
    }
  }

  /** Every verdict on the fields of the inference, the profile and the definitions. */
  lemma EvaluateIs(inferred: Inferred, profile: Profile, definitions: seq<Definition>)
    ensures var fit := Evaluate(inferred, profile, definitions);
      && (fit.status.Unknown? <==> inferred.container.None?)
      && (fit.status.TopTier? <==> HasTier(inferred, profile, definitions, 0))
      && (fit.status.BelowCutoff? <==>
        exists k: nat :: HasTier(inferred, profile, definitions, k) && AfterCutoff(profile, k))
      && (fit.status.Accepted? <==>
        || (exists k: nat :: k > 0 && HasTier(inferred, profile, definitions, k) && !AfterCutoff(profile, k))
        || (NoTier(inferred, profile, definitions)
            && inferred.container.Some? && inferred.container.value in profile.allowedFormats))
      && (forall id :: fit.matched == Some(id) <==>
        exists k: nat :: HasTier(inferred, profile, definitions, k) && profile.qualityIds[k] == id)
  {
    EvaluateMeans(inferred, profile, definitions);
    TierIndexIs(inferred, profile, definitions);
    var fit := Evaluate(inferred, profile, definitions);
    var tier := TierIndex(fit, profile);
    if tier.Some? {
      assert HasTier(inferred, profile, definitions, tier.value);
      AfterCutoffIs(profile, tier.value);
    }
    hide HasTier, NoTier, AfterCutoff;
    assert forall k: nat :: HasTier(inferred, profile, definitions, k) ==> tier == Some(k);
  }

  // ---------- the best file of a book ----------

  ghost predicate IsBest(fits: seq<Fit>, profile: Profile, best: Fit) {
    exists i :: 0 <= i < |fits| && fits[i] == best && IsBestAt(fits, profile, i)
  }

  /** `fits[i]` is the first with the least tier, or the first of all when none has a tier. */
  ghost predicate IsBestAt(fits: seq<Fit>, profile: Profile, i: nat)
    requires i < |fits|
  {
    var t := TierIndex(fits[i], profile);
    if t.Some? then
      && (forall j :: 0 <= j < |fits| ==> TierIndex(fits[j], profile).Some? ==> t.value <= TierIndex(fits[j], profile).value)
      && (forall j :: 0 <= j < i ==> TierIndex(fits[j], profile) != t)
    else
      i == 0 && forall j :: 0 <= j < |fits| ==> TierIndex(fits[j], profile).None?
  }

  function Fits(files: seq<Inferred>, profile: Profile, definitions: seq<Definition>): (r: seq<Fit>)
    ensures |r| == |files| && forall i :: 0 <= i < |r| ==> r[i] == Evaluate(files[i], profile, definitions)
  {
    seq(|files|, i requires 0 <= i < |files| => Evaluate(files[i], profile, definitions))
  }

  lemma BestNext(fits: seq<Fit>, n: nat, at: nat, profile: Profile)
    requires n < |fits| && (n > 0 ==> at < n && IsBestAt(fits[..n], profile, at))
    ensures n == 0 ==> IsBestAt(fits[..1], profile, 0)
    ensures n > 0 ==>
      var best, next := TierIndex(fits[at], profile), TierIndex(fits[n], profile);
      IsBestAt(fits[..n + 1], profile, if next.Some? && (best.None? || next.value < best.value) then n else at)
  {
    hide TierIndex;
    assert forall j :: 0 <= j < n ==> fits[..n + 1][j] == fits[..n][j];
    assert fits[..n + 1][n] == fits[n];
  }

  method BestCurrentFit(files: seq<Inferred>, profile: Profile, definitions: seq<Definition>) returns (best: Option<Fit>)
    ensures best.None? <==> files == []
    ensures best.Some? ==> IsBest(Fits(files, profile, definitions), profile, best.value)
  {
    hide Evaluate, TierIndex, IsBestAt;
    ghost var fits := Fits(files, profile, definitions);
    best := None;
    var bestIndex: Option<nat> := None;
    ghost var at := 0;
    for n := 0 to |files|
      invariant best.None? <==> n == 0
      invariant best.Some? ==> at < n && best.value == fits[at] && bestIndex == TierIndex(fits[at], profile)
      invariant best.Some? ==> IsBestAt(fits[..n], profile, at)
    {
      var fit := Evaluate(files[n], profile, definitions);
      var index := TierIndex(fit, profile);
      BestNext(fits, n, at, profile);
      if best.None? || (index.Some? && (bestIndex.None? || index.value < bestIndex.value)) {
        best, bestIndex, at := Some(fit), index, n;
      }
    }
    assert fits[..|files|] == fits;
  }

  /** The best tier is determined by which fits there are, not by their order. */
  lemma BestTierUnique(fits: seq<Fit>, other: seq<Fit>, profile: Profile, best: Fit, best': Fit)
    requires IsBest(fits, profile, best) && IsBest(other, profile, best')
    requires forall f :: f in fits <==> f in other
    ensures TierIndex(best, profile) == TierIndex(best', profile)
  {
    hide TierIndex;
    var i :| 0 <= i < |fits| && fits[i] == best && IsBestAt(fits, profile, i);
    var j :| 0 <= j < |other| && other[j] == best' && IsBestAt(other, profile, j);
    assert best in other && best' in fits;
    var i' :| 0 <= i' < |other| && other[i'] == best;
    var j' :| 0 <= j' < |fits| && fits[j'] == best';
  }

  // ---------- the cutoff list ----------

  /** A monitored book with files is listed when its best file is below the cutoff. */
  ghost predicate OnCutoffList(files: seq<Inferred>, profile: Profile, definitions: seq<Definition>) {
    && profile.upgradeAllowed && files != []
    && forall best :: IsBest(Fits(files, profile, definitions), profile, best) ==> best.status.BelowCutoff?
  }

  datatype BookRow = BookRow(id: nat, monitored: bool, profile: Option<Profile>, files: seq<Inferred>)

  ghost predicate Listed(book: BookRow, definitions: seq<Definition>) {
    book.monitored && book.profile.Some? && OnCutoffList(book.files, book.profile.value, definitions)
  }

  lemma ListedByBest(files: seq<Inferred>, profile: Profile, definitions: seq<Definition>, best: Fit)
    requires IsBest(Fits(files, profile, definitions), profile, best)
    ensures OnCutoffList(files, profile, definitions) <==> profile.upgradeAllowed && best.status.BelowCutoff?
  {
    hide Evaluate, TierIndex;
    var fits := Fits(files, profile, definitions);
    forall other | IsBest(fits, profile, other)
      ensures other.status.BelowCutoff? == best.status.BelowCutoff?
    {
      BestTierUnique(fits, fits, profile, best, other);
      StatusByTier(files, profile, definitions, best);
      StatusByTier(files, profile, definitions, other);
    }
  }

  lemma StatusByTier(files: seq<Inferred>, profile: Profile, definitions: seq<Definition>, fit: Fit)
    requires fit in Fits(files, profile, definitions)
    ensures var tier := TierIndex(fit, profile);
      fit.status.BelowCutoff? <==> tier.Some? && tier.value > CutoffIndex(profile)
  {
    var i :| 0 <= i < |files| && Fits(files, profile, definitions)[i] == fit;
    EvaluateMeans(files[i], profile, definitions);
  }

  /**
   On the fields alone: an upgrade is wanted when some file has a tier and every file that has
   one has it after the cutoff.
   */
  lemma CutoffListIs(files: seq<Inferred>, profile: Profile, definitions: seq<Definition>)
    ensures OnCutoffList(files, profile, definitions) <==>
      && profile.upgradeAllowed
      && (exists i, k: nat :: 0 <= i < |files| && HasTier(files[i], profile, definitions, k))
      && (forall i, k: nat :: 0 <= i < |files| && HasTier(files[i], profile, definitions, k) ==> AfterCutoff(profile, k))
  {
    hide Evaluate, TierIndex, HasTier, NoTier, AfterCutoff, OnCutoffList;
    var fits := Fits(files, profile, definitions);
    forall i | 0 <= i < |files|
      ensures forall k: nat :: TierIndex(fits[i], profile) == Some(k) <==> HasTier(files[i], profile, definitions, k)
    {
      TierIndexIs(files[i], profile, definitions);
    }
    if files == [] {
      NothingListed(profile, definitions);
    } else {
      var at := BestExists(fits, profile);
      assert IsBest(fits, profile, fits[at]);
      ListedByBest(files, profile, definitions, fits[at]);
      StatusByTier(files, profile, definitions, fits[at]);
      var tier := TierIndex(fits[at], profile);
      BestHasLeastTier(fits, profile, fits[at]);
      forall k: nat | k < |profile.qualityIds|
        ensures k > CutoffIndex(profile) <==> AfterCutoff(profile, k)
      {
        AfterCutoffIs(profile, k);
      }
      forall i, k: nat | 0 <= i < |files| && HasTier(files[i], profile, definitions, k)
        ensures k < |profile.qualityIds| && tier.Some? && tier.value <= k
      {
        assert NoWorse(tier, TierIndex(fits[i], profile));
        TierInRange(files[i], profile, definitions, k);
      }
      assert tier.Some? ==> HasTier(files[at], profile, definitions, tier.value);
      if OnCutoffList(files, profile, definitions) {
        assert profile.upgradeAllowed;
        assert tier.Some? && tier.value > CutoffIndex(profile);
        assert exists i, k: nat :: 0 <= i < |files| && HasTier(files[i], profile, definitions, k);
      } else if profile.upgradeAllowed && tier.Some? {
        assert !AfterCutoff(profile, tier.value);
      }
    }
  }

  lemma TierInRange(inferred: Inferred, profile: Profile, definitions: seq<Definition>, k: nat)
    requires HasTier(inferred, profile, definitions, k)
    ensures k < |profile.qualityIds|
  {
  }

  lemma NothingListed(profile: Profile, definitions: seq<Definition>)
    ensures !OnCutoffList([], profile, definitions)
  {
  }

  ghost function ListedIds(books: seq<BookRow>, definitions: seq<Definition>): (ids: seq<nat>)
    ensures forall id :: id in ids <==> exists i :: 0 <= i < |books| && books[i].id == id && Listed(books[i], definitions)
  {
    if books == [] then []
    else
      var n := |books| - 1;
      assert forall i :: 0 <= i < n ==> books[..n][i] == books[i];
      ListedIds(books[..n], definitions) + if Listed(books[n], definitions) then [books[n].id] else []
  }

  /** Listed books keep the order of the rows. */
  lemma {:induction false} ListedInOrder(
      before: seq<BookRow>, book: BookRow, after: seq<BookRow>, definitions: seq<Definition>)
    ensures ListedIds(before + [book] + after, definitions)
         == ListedIds(before, definitions) + (if Listed(book, definitions) then [book.id] else [])
            + ListedIds(after, definitions)
    decreases |after|
  {
    hide Listed;
    var all := before + [book] + after;
    if after == [] {
      assert all[..|all| - 1] == before;
    } else {
      assert all[..|all| - 1] == before + [book] + after[..|after| - 1];
      ListedInOrder(before, book, after[..|after| - 1], definitions);
    }
  }

  /** The ids of the listed books, in the order of the rows. */
  method ListCutoffCandidates(books: seq<BookRow>, definitions: seq<Definition>) returns (candidates: seq<nat>)
    ensures candidates == ListedIds(books, definitions)
    ensures forall id :: id in candidates <==> exists i :: 0 <= i < |books| && books[i].id == id && Listed(books[i], definitions)
  {
    hide Listed;
    candidates := [];
    for n := 0 to |books|
      invariant candidates == ListedIds(books[..n], definitions)
    {
      assert books[..n + 1][..n] == books[..n];
      var listed := IsListed(books[n], definitions);
      if listed {
        candidates := candidates + [books[n].id];
      }
    }
    assert books[..|books|] == books;
  }

  method IsListed(book: BookRow, definitions: seq<Definition>) returns (listed: bool)
    ensures listed <==> Listed(book, definitions)
  {
    hide Evaluate, TierIndex, IsBest;
    if !book.monitored || book.files == [] || book.profile.None? || !book.profile.value.upgradeAllowed {
      return false;
    }
    var best := BestCurrentFit(book.files, book.profile.value, definitions);
    ListedByBest(book.files, book.profile.value, definitions, best.value);
    listed := best.value.status.BelowCutoff?;
  }

  // ---------- choosing a release ----------

  /** A search result with its preference score; `blocked` is a rejected preference verdict. */
  datatype Release = Release(inferred: Inferred, score: int, blocked: bool, seeders: int)

  datatype Ranked = Ranked(tier: nat, negScore: int, negSeeders: int, release: Release)

  predicate Before(a: Ranked, b: Ranked) {
    || a.tier < b.tier
    || (a.tier == b.tier && a.negScore < b.negScore)
    || (a.tier == b.tier && a.negScore == b.negScore && a.negSeeders < b.negSeeders)
  }

  predicate Fitting(r: Release, profile: Profile, definitions: seq<Definition>) {
    var status := Evaluate(r.inferred, profile, definitions).status;
    (status.TopTier? || status.Accepted?) && !r.blocked
  }

  function Rank(r: Release, profile: Profile, definitions: seq<Definition>): Ranked {
    var tier := TierIndex(Evaluate(r.inferred, profile, definitions), profile);
    Ranked(if tier.Some? then tier.value else |profile.qualityIds|, -r.score, -r.seeders, r)
  }

  function FittingRanked(releases: seq<Release>, profile: Profile, definitions: seq<Definition>): seq<Ranked> {
    if releases == [] then []
    else
      var r := releases[|releases| - 1];
      FittingRanked(releases[..|releases| - 1], profile, definitions)
      + if Fitting(r, profile, definitions) then [Rank(r, profile, definitions)] else []
  }

  function Insert(x: Ranked, sorted: seq<Ranked>): seq<Ranked> {
    if sorted == [] then [x]
    else if Before(x, sorted[0]) then [x] + sorted
    else [sorted[0]] + Insert(x, sorted[1..])
  }

  /** `list.sort(key=...)`: stable, so an element goes after earlier ones with an equal key. */
  function StableSort(list: seq<Ranked>): seq<Ranked> {
    if list == [] then [] else Insert(list[|list| - 1], StableSort(list[..|list| - 1]))
  }

  predicate Ordered(list: seq<Ranked>) {
    forall i, j :: 0 <= i < j < |list| ==> !Before(list[j], list[i])
  }

  lemma {:induction false} InsertOrdered(x: Ranked, sorted: seq<Ranked>)
    requires Ordered(sorted)
    ensures Ordered(Insert(x, sorted)) && multiset(Insert(x, sorted)) == multiset(sorted) + multiset{x}
  {
    if sorted == [] {
    } else if Before(x, sorted[0]) {
    } else {
      InsertOrdered(x, sorted[1..]);
      var rest := Insert(x, sorted[1..]);
      assert sorted == [sorted[0]] + sorted[1..];
      forall j | 0 <= j < |rest|
        ensures !Before(rest[j], sorted[0])
      {
        assert rest[j] in multiset(rest);
      }
    }
  }

  lemma {:induction false} StableSortOrdered(list: seq<Ranked>)
    ensures Ordered(StableSort(list)) && multiset(StableSort(list)) == multiset(list)
  {
    if list != [] {
      StableSortOrdered(list[..|list| - 1]);
      InsertOrdered(list[|list| - 1], StableSort(list[..|list| - 1]));
      assert list == list[..|list| - 1] + [list[|list| - 1]];
    }
  }

  /** `list[i]` is the first minimum of the key. */
  ghost predicate FirstMinimum(list: seq<Ranked>, i: nat) {
    && i < |list|
    && (forall j :: 0 <= j < |list| ==> !Before(list[j], list[i]))
    && (forall j :: 0 <= j < i ==> Before(list[i], list[j]))
  }

  lemma BeforeChain(a: Ranked, b: Ranked, c: Ranked)
    requires Before(a, b) && !Before(c, b)
    ensures Before(a, c) && !Before(c, a)
  {}

  lemma FirstMinimumExtended(list: seq<Ranked>, i: nat)
    requires list != [] && FirstMinimum(list[..|list| - 1], i)
    ensures FirstMinimum(list, if Before(list[|list| - 1], list[i]) then |list| - 1 else i)
  {
    hide Before;
    var n := |list| - 1;
    assert forall j :: 0 <= j < n ==> list[j] == list[..n][j];
    if Before(list[n], list[i]) {
      forall j | 0 <= j < n
        ensures Before(list[n], list[j]) && !Before(list[j], list[n])
      {
        BeforeChain(list[n], list[i], list[j]);
      }
      NeverBeforeItself(list[n]);
    }
  }

  lemma NeverBeforeItself(a: Ranked)
    ensures !Before(a, a)
  {}

  lemma {:induction false} SortedHead(list: seq<Ranked>) returns (i: nat)
    requires list != []
    ensures StableSort(list) != [] && FirstMinimum(list, i) && StableSort(list)[0] == list[i]
  {
    hide Before, FirstMinimum;
    var n := |list| - 1;
    if n == 0 {
      i := 0;
      assert list[..0] == [];
      NeverBeforeItself(list[0]);
      SingleMinimum(list);
    } else {
      i := SortedHead(list[..n]);
      FirstMinimumIndex(list[..n], i);
      FirstMinimumExtended(list, i);
      if Before(list[n], list[i]) {
        i := n;
      }
    }
  }

  lemma SingleMinimum(list: seq<Ranked>)
    requires |list| == 1
    ensures FirstMinimum(list, 0)
  {}

  lemma FirstMinimumIndex(list: seq<Ranked>, i: nat)
    requires FirstMinimum(list, i)
    ensures i < |list|
  {}

  // ---------- the choice on the releases' own fields ----------

  /** The search accepts the release: not blocked, and a tier not after the cutoff or an allowed format. */
  ghost predicate Acceptable(r: Release, profile: Profile, definitions: seq<Definition>) {
    && !r.blocked && r.inferred.container.Some?
    && if NoTier(r.inferred, profile, definitions) then r.inferred.container.value in profile.allowedFormats
       else exists k: nat :: HasTier(r.inferred, profile, definitions, k) && !AfterCutoff(profile, k)
  }

  lemma FittingIs(r: Release, profile: Profile, definitions: seq<Definition>)
    ensures Fitting(r, profile, definitions) <==> Acceptable(r, profile, definitions)
  {
    EvaluateIs(r.inferred, profile, definitions);
    TierIndexIs(r.inferred, profile, definitions);
    hide Evaluate, HasTier, AfterCutoff, NoTier;
    NotAfterTop(profile);
    if HasTier(r.inferred, profile, definitions, 0) {
      TierInRange(r.inferred, profile, definitions, 0);
    }
  }

  lemma NotAfterTop(profile: Profile)
    ensures profile.qualityIds != [] ==> !AfterCutoff(profile, 0)
  {
  }

  /** `a` has a better tier than `b`; no tier comes after every tier. */
  ghost predicate BetterTierThan(a: Release, b: Release, profile: Profile, definitions: seq<Definition>) {
    exists k: nat :: HasTier(a.inferred, profile, definitions, k)
      && forall m: nat :: HasTier(b.inferred, profile, definitions, m) ==> k < m
  }

  /**
   Release `c` is the one to take: acceptable; no other acceptable one has a better tier, a higher
   score in the same tier, or more seeders at the same score; the earliest among its equals.
   */
  ghost predicate BestChoice(releases: seq<Release>, profile: Profile, definitions: seq<Definition>, c: nat) {
    && c < |releases| && Acceptable(releases[c], profile, definitions)
    && forall i :: 0 <= i < |releases| && Acceptable(releases[i], profile, definitions) ==>
      && !BetterTierThan(releases[i], releases[c], profile, definitions)
      && (!BetterTierThan(releases[c], releases[i], profile, definitions) ==>
        && releases[i].score <= releases[c].score
        && (releases[i].score == releases[c].score ==>
          && releases[i].seeders <= releases[c].seeders
          && (releases[i].seeders == releases[c].seeders ==> c <= i)))
  }

  /** The releases that fit, by index. */
  function FittingAt(releases: seq<Release>, profile: Profile, definitions: seq<Definition>): (at: seq<nat>)
    ensures forall a :: 0 <= a < |at| ==> at[a] < |releases|
    ensures forall a, b :: 0 <= a < b < |at| ==> at[a] < at[b]
  {
    if releases == [] then []
    else
      var n := |releases| - 1;
      FittingAt(releases[..n], profile, definitions) + if Fitting(releases[n], profile, definitions) then [n] else []
  }

  lemma {:induction false} RankedAt(releases: seq<Release>, profile: Profile, definitions: seq<Definition>)
    ensures var list, at := FittingRanked(releases, profile, definitions), FittingAt(releases, profile, definitions);
      && |list| == |at|
      && (forall a :: 0 <= a < |at| ==>
        Fitting(releases[at[a]], profile, definitions) && list[a] == Rank(releases[at[a]], profile, definitions))
      && (forall i :: 0 <= i < |releases| && Fitting(releases[i], profile, definitions) ==> i in at)
  {
    hide Fitting, Rank;
    if releases != [] {
      RankedAt(releases[..|releases| - 1], profile, definitions);
    }
  }

  /** How the sort key compares two releases that both fit. */
  lemma BeforeIs(a: Release, b: Release, profile: Profile, definitions: seq<Definition>)
    ensures Before(Rank(a, profile, definitions), Rank(b, profile, definitions)) <==>
      || BetterTierThan(a, b, profile, definitions)
      || (!BetterTierThan(b, a, profile, definitions)
          && (a.score > b.score || (a.score == b.score && a.seeders > b.seeders)))
  {
    TierIndexIs(a.inferred, profile, definitions);
    TierIndexIs(b.inferred, profile, definitions);
    var s := TierIndex(Evaluate(a.inferred, profile, definitions), profile);
    var t := TierIndex(Evaluate(b.inferred, profile, definitions), profile);
    TierBound(a.inferred, profile, definitions);
    TierBound(b.inferred, profile, definitions);
    hide Evaluate, TierIndex, HasTier, NoTier;
    assert BetterTierThan(a, b, profile, definitions) <==> s.Some? && (t.None? || s.value < t.value) by {
      assert s.Some? ==> HasTier(a.inferred, profile, definitions, s.value);
      assert t.Some? ==> HasTier(b.inferred, profile, definitions, t.value);
    }
    assert BetterTierThan(b, a, profile, definitions) <==> t.Some? && (s.None? || t.value < s.value) by {
      assert s.Some? ==> HasTier(a.inferred, profile, definitions, s.value);
      assert t.Some? ==> HasTier(b.inferred, profile, definitions, t.value);
    }
  }

  lemma TierBound(inferred: Inferred, profile: Profile, definitions: seq<Definition>)
    ensures var tier := TierIndex(Evaluate(inferred, profile, definitions), profile);
      tier.Some? ==> tier.value < |profile.qualityIds|
  {
    hide Evaluate;
  }

  /** The first minimum of the key is the best choice. */
  lemma FirstMinimumIsBest(releases: seq<Release>, profile: Profile, definitions: seq<Definition>, a: nat) returns (c: nat)
    requires FirstMinimum(FittingRanked(releases, profile, definitions), a)
    ensures BestChoice(releases, profile, definitions, c)
    ensures releases[c] == FittingRanked(releases, profile, definitions)[a].release
  {
    var list, at := FittingRanked(releases, profile, definitions), FittingAt(releases, profile, definitions);
    RankedAt(releases, profile, definitions);
    RankHolds(releases, profile, definitions);
    hide Before, Rank, Fitting, Acceptable, BetterTierThan, FittingRanked, FittingAt;
    c := at[a];
    FittingIs(releases[c], profile, definitions);
    forall i | 0 <= i < |releases| && Acceptable(releases[i], profile, definitions)
      ensures !Before(Rank(releases[i], profile, definitions), Rank(releases[c], profile, definitions))
      ensures i < c ==> Before(Rank(releases[c], profile, definitions), Rank(releases[i], profile, definitions))
    {
      FittingIs(releases[i], profile, definitions);
      var b :| 0 <= b < |at| && at[b] == i;
      assert !Before(list[b], list[a]);
      assert i < c ==> b < a;
    }
    forall i | 0 <= i < |releases|
      ensures Before(Rank(releases[i], profile, definitions), Rank(releases[c], profile, definitions)) <==>
        || BetterTierThan(releases[i], releases[c], profile, definitions)
        || (!BetterTierThan(releases[c], releases[i], profile, definitions)
            && (releases[i].score > releases[c].score
                || (releases[i].score == releases[c].score && releases[i].seeders > releases[c].seeders)))
      ensures Before(Rank(releases[c], profile, definitions), Rank(releases[i], profile, definitions)) <==>
        || BetterTierThan(releases[c], releases[i], profile, definitions)
        || (!BetterTierThan(releases[i], releases[c], profile, definitions)
            && (releases[c].score > releases[i].score
                || (releases[c].score == releases[i].score && releases[c].seeders > releases[i].seeders)))
    {
      BeforeIs(releases[i], releases[c], profile, definitions);
      BeforeIs(releases[c], releases[i], profile, definitions);
    }
  }

  lemma RankHolds(releases: seq<Release>, profile: Profile, definitions: seq<Definition>)
    ensures forall i :: 0 <= i < |releases| ==> Rank(releases[i], profile, definitions).release == releases[i]
  {
    hide Evaluate, TierIndex;
  }

  method FindFittingRelease(releases: seq<Release>, profile: Profile, definitions: seq<Definition>)
    returns (chosen: Option<Release>)
    ensures var list := FittingRanked(releases, profile, definitions);
      && (chosen.None? <==> list == [])
      && (chosen.Some? ==> exists i: nat :: FirstMinimum(list, i) && list[i].release == chosen.value)
    ensures chosen.Some? ==> chosen.value in releases && Fitting(chosen.value, profile, definitions)
    ensures chosen.None? <==> forall i :: 0 <= i < |releases| ==> !Acceptable(releases[i], profile, definitions)
    ensures chosen.Some? ==>
      exists c: nat :: BestChoice(releases, profile, definitions, c) && releases[c] == chosen.value
  {
    hide Fitting, Rank, Acceptable, BestChoice;
    var fitting: seq<Ranked> := [];
    for n := 0 to |releases|
      invariant fitting == FittingRanked(releases[..n], profile, definitions)
    {
      assert releases[..n + 1][..n] == releases[..n];
      if Fitting(releases[n], profile, definitions) {
        fitting := fitting + [Rank(releases[n], profile, definitions)];
      }
    }
    assert releases[..|releases|] == releases;
    RankedAt(releases, profile, definitions);
    forall i | 0 <= i < |releases|
      ensures Fitting(releases[i], profile, definitions) <==> Acceptable(releases[i], profile, definitions)
    {
      FittingIs(releases[i], profile, definitions);
    }
    if fitting == [] {
      return None;
    }
    ghost var i := SortedHead(fitting);
    ghost var c := FirstMinimumIsBest(releases, profile, definitions, i);
    RankedOrigin(releases, profile, definitions, i);
    fitting := StableSort(fitting);
    chosen := Some(fitting[0].release);
  }

  lemma {:induction false} RankedOrigin(releases: seq<Release>, profile: Profile, definitions: seq<Definition>, i: nat)
    requires i < |FittingRanked(releases, profile, definitions)|
    ensures var x := FittingRanked(releases, profile, definitions)[i];
      x.release in releases && Fitting(x.release, profile, definitions) && x == Rank(x.release, profile, definitions)
  {
    hide Fitting;
    var n := |releases| - 1;
    var before := FittingRanked(releases[..n], profile, definitions);
    if i < |before| {
      RankedOrigin(releases[..n], profile, definitions, i);
      assert before[i].release in releases[..n];
    }
  }

  // ---------- upgrades converge ----------

  /** The least tier occurring among `fits`; `None` when no fit has a tier. */
  ghost predicate LeastTier(fits: seq<Fit>, profile: Profile, tier: Option<nat>) {
    && (tier.Some? ==> exists i :: 0 <= i < |fits| && TierIndex(fits[i], profile) == tier)
    && (forall i :: 0 <= i < |fits| ==> NoWorse(tier, TierIndex(fits[i], profile)))
  }

  predicate NoWorse(a: Option<nat>, b: Option<nat>) {
    b.None? || (a.Some? && a.value <= b.value)
  }

  function BetterTier(a: Option<nat>, b: Option<nat>): Option<nat> {
    if NoWorse(a, b) then a else b
  }

  lemma BestHasLeastTier(fits: seq<Fit>, profile: Profile, best: Fit)
    requires IsBest(fits, profile, best)
    ensures LeastTier(fits, profile, TierIndex(best, profile))
  {
    hide TierIndex;
  }

  lemma LeastTierUnique(fits: seq<Fit>, profile: Profile, a: Option<nat>, b: Option<nat>)
    requires LeastTier(fits, profile, a) && LeastTier(fits, profile, b)
    ensures a == b
  {
    hide TierIndex;
  }

  lemma LeastTierAfterAdding(fits: seq<Fit>, k: nat, x: Fit, profile: Profile, tier: Option<nat>)
    requires k <= |fits| && LeastTier(fits, profile, tier)
    ensures LeastTier(fits[..k] + [x] + fits[k..], profile, BetterTier(tier, TierIndex(x, profile)))
  {
    hide TierIndex;
    var grown := fits[..k] + [x] + fits[k..];
    assert grown[k] == x;
    assert forall m :: 0 <= m < |fits| ==> grown[if m < k then m else m + 1] == fits[m];
    forall m | 0 <= m < |grown|
      ensures NoWorse(BetterTier(tier, TierIndex(x, profile)), TierIndex(grown[m], profile))
    {
      if m != k {
        assert grown[m] == fits[if m < k then m else m - 1];
      }
    }
  }

  /** Adding a file keeps the better of the old best tier and the new file's tier. */
  lemma BestAfterAdding(files: seq<Inferred>, k: nat, x: Inferred, profile: Profile, definitions: seq<Definition>,
                        best: Fit, best': Fit)
    requires k <= |files|
    requires IsBest(Fits(files, profile, definitions), profile, best)
    requires IsBest(Fits(files[..k] + [x] + files[k..], profile, definitions), profile, best')
    ensures TierIndex(best', profile)
         == BetterTier(TierIndex(best, profile), TierIndex(Evaluate(x, profile, definitions), profile))
  {
    hide Evaluate, TierIndex, IsBest, LeastTier, BetterTier;
    var fits := Fits(files, profile, definitions);
    var grown := Fits(files[..k] + [x] + files[k..], profile, definitions);
    assert grown == fits[..k] + [Evaluate(x, profile, definitions)] + fits[k..];
    BestHasLeastTier(fits, profile, best);
    BestHasLeastTier(grown, profile, best');
    LeastTierAfterAdding(fits, k, Evaluate(x, profile, definitions), profile, TierIndex(best, profile));
    LeastTierUnique(grown, profile, TierIndex(best', profile),
                    BetterTier(TierIndex(best, profile), TierIndex(Evaluate(x, profile, definitions), profile)));
  }

  lemma {:induction false} BestExists(fits: seq<Fit>, profile: Profile) returns (i: nat)
    requires fits != []
    ensures i < |fits| && IsBestAt(fits, profile, i)
  {
    hide TierIndex;
    var n := |fits| - 1;
    if n == 0 {
      i := 0;
    } else {
      i := BestExists(fits[..n], profile);
      var a, b := TierIndex(fits[i], profile), TierIndex(fits[n], profile);
      if b.Some? && (a.None? || b.value < a.value) {
        i := n;
      }
    }
  }

  /**
   Adding, at any place, a file with the inferred quality of a release the search accepts
   takes a listed book off the cutoff list exactly when the release matched a tier; one
   accepted only through the allowed formats leaves the book on the list.
   */
  lemma UpgradeConverges(files: seq<Inferred>, k: nat, r: Release, profile: Profile, definitions: seq<Definition>)
    requires k <= |files| && OnCutoffList(files, profile, definitions) && Fitting(r, profile, definitions)
    ensures OnCutoffList(files[..k] + [r.inferred] + files[k..], profile, definitions)
       <==> Evaluate(r.inferred, profile, definitions).matched.None?
  {
    EvaluateMeans(r.inferred, profile, definitions);
    MatchedIsTier(r.inferred, profile, definitions);
    var grown := files[..k] + [r.inferred] + files[k..];
    hide Evaluate, TierIndex;
    var fits, fits' := Fits(files, profile, definitions), Fits(grown, profile, definitions);
    var i := BestExists(fits, profile);
    var j := BestExists(fits', profile);
    assert IsBest(fits, profile, fits[i]) && IsBest(fits', profile, fits'[j]);
    hide IsBest, IsBestAt;
    BestAfterAdding(files, k, r.inferred, profile, definitions, fits[i], fits'[j]);
    ListedByBest(files, profile, definitions, fits[i]);
    ListedByBest(grown, profile, definitions, fits'[j]);
    StatusByTier(files, profile, definitions, fits[i]);
    StatusByTier(grown, profile, definitions, fits'[j]);
  }

  lemma MatchedIsTier(inferred: Inferred, profile: Profile, definitions: seq<Definition>)
    ensures var fit := Evaluate(inferred, profile, definitions); fit.matched.Some? <==> TierIndex(fit, profile).Some?
    ensures profile.qualityIds != [] ==> CutoffIndex(profile) >= 0
  {
    EvaluateMeans(inferred, profile, definitions);
  }

  /**
   A book with an `mp3` file below the cutoff tier `m4b`, and an `ogg` release that fits no tier
   but is an allowed format: the search accepts it, and with it the book is still listed.
   */
  lemma AllowedFormatKeepsListed()
    ensures var m4b := Definition("m4b", "m4b", "aac", 0, 999, NotRequired);
      var mp3 := Definition("mp3", "mp3", "mp3", 0, 999, NotRequired);
      var definitions := [m4b, mp3];
      var profile := Profile(["ogg"], ["m4b", "mp3"], "m4b", true);
      var file := Inferred(Some("mp3"), None, None, None);
      var release := Release(Inferred(Some("ogg"), None, None, None), 0, false, 5);
      && OnCutoffList([file], profile, definitions)
      && Fitting(release, profile, definitions)
      && OnCutoffList([file, release.inferred], profile, definitions)
  {
    var m4b := Definition("m4b", "m4b", "aac", 0, 999, NotRequired);
    var mp3 := Definition("mp3", "mp3", "mp3", 0, 999, NotRequired);
    var definitions := [m4b, mp3];
    var profile := Profile(["ogg"], ["m4b", "mp3"], "m4b", true);
    var file := Inferred(Some("mp3"), None, None, None);
    var release := Release(Inferred(Some("ogg"), None, None, None), 0, false, 5);
    TwoTiers(definitions, profile);
    assert TierFits(file, profile, definitions, 1) && !TierFits(file, profile, definitions, 0);
    assert FirstTier(file, profile, definitions, 0) == Some(1);
    assert Evaluate(file, profile, definitions) == Fit(file, Some("mp3"), BelowCutoff);
    assert FirstTier(release.inferred, profile, definitions, 0) == None;
    assert Fitting(release, profile, definitions) && Evaluate(release.inferred, profile, definitions).matched.None?;
    hide Evaluate;
    SingleListed(file, profile, definitions);
    UpgradeConverges([file], 1, release, profile, definitions);
    assert [file][..1] + [release.inferred] + [file][1..] == [file, release.inferred];
  }

  lemma TwoTiers(definitions: seq<Definition>, profile: Profile)
    requires |definitions| == 2 && definitions[0].id == "m4b" && definitions[1].id == "mp3"
    requires profile.qualityIds == ["m4b", "mp3"] && profile.cutoffQualityId == "m4b"
    ensures DefinitionById(definitions, "m4b") == Some(definitions[0])
    ensures DefinitionById(definitions, "mp3") == Some(definitions[1])
    ensures CutoffIndex(profile) == 0
  {
    assert definitions[..1] == [definitions[0]];
    assert "m4b"[1] == '4' && "mp3"[1] == 'p';
  }

  lemma SingleListed(file: Inferred, profile: Profile, definitions: seq<Definition>)
    requires profile.upgradeAllowed && Evaluate(file, profile, definitions).status.BelowCutoff?
    ensures OnCutoffList([file], profile, definitions)
  {
    hide Evaluate;
    var fits := Fits([file], profile, definitions);
    assert forall best :: IsBest(fits, profile, best) ==> best == fits[0];
  }
}
