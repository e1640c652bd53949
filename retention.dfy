/** The retention engine: the output directory holds the tier directories `daily`, `weekly`, `monthly`
    and `yearly`; after a backup, each tier the day admits is first cleared of the dated archives older
    than its limit (`remove_outdated_backups`, backup.py:245-264) and then receives the day's archive
    (`on_backup_completed`, backup.py:267-296). "Today" is a parameter. */
module Retention {
  import opened Base
  import opened Dates
  import opened Naming
  import opened FileSystem

  // ---------------------------------------------------------------------------------------------------
  // Pruning one tier

  /** A regular file whose name `RE_BACKUP_FILE` recognises: the files the pruning looks at. */
  predicate IsCandidate(es: map<string, Node>, name: string)
  {
    name in es && es[name].File? && MatchBackupName(name).Some?
  }

  /** The date embedded in a candidate's name, read by `strptime`. */
  function NameDate(name: string): Result<Date, Error>
    requires MatchBackupName(name).Some?
  {
    ParseDate(MatchBackupName(name).value)
  }

  /** `(today - dt).days`: the difference of the day ordinals. */
  function Age(today: Date, d: Date): int
    requires Valid(today) && Valid(d)
  {
    ToOrdinal(today) - ToOrdinal(d)
  }

  /** A candidate whose date reads back and is more than `maxAge` days old. */
  predicate Removable(es: map<string, Node>, name: string, maxAge: int, today: Date)
    requires Valid(today)
  {
    IsCandidate(es, name) && NameDate(name).Ok? && Age(today, NameDate(name).value) > maxAge
  }

  /** Every candidate's date reads back, so the pruning loop runs to its end. */
  predicate AllParse(es: map<string, Node>)
  {
    forall name :: name in es && IsCandidate(es, name) ==> NameDate(name).Ok?
  }

  /** The entries left once the removable candidates are deleted. */
  function Kept(es: map<string, Node>, maxAge: int, today: Date): map<string, Node>
    requires Valid(today)
  {
    map name | name in es && !Removable(es, name, maxAge, today) :: es[name]
  }

  /** `remove_outdated_backups(output_path / tier, maxAge)`, on the entries of the output directory:
      listing a missing tier raises `FileNotFoundError`, listing a regular file `NotADirectoryError`,
      a candidate whose date `strptime` rejects `ValueError`; otherwise the removable candidates go. */
  function Prune(out: map<string, Node>, tier: string, maxAge: int, today: Date): (r: Result<map<string, Node>, Error>)
    requires Valid(today)
  {
    if tier !in out then Err(FileNotFoundError)
    else if out[tier].File? then Err(NotADirectoryError)
    else if !AllParse(out[tier].entries) then Err(ValueError)
    else Ok(out[tier := Dir(Kept(out[tier].entries, maxAge, today))])
  }

  /** The state a pruning stopped by a `ValueError` leaves behind: only the tier has changed, and only
      by losing removable candidates. */
  predicate PartlyPruned(before: map<string, Node>, after: map<string, Node>, tier: string, maxAge: int, today: Date)
    requires Valid(today)
  {
    && tier in before && before[tier].Dir? && tier in after && after[tier].Dir?
    && after == before[tier := after[tier]]
    && var es, rest := before[tier].entries, after[tier].entries;
      && (forall name :: name in rest ==> name in es && rest[name] == es[name])
      && (forall name :: name in es && name !in rest ==> Removable(es, name, maxAge, today))
  }

  /** The pruning fails exactly in the three ways the script raises, and otherwise changes only the
      tier. */
  lemma PruneOutcome(out: map<string, Node>, tier: string, maxAge: int, today: Date)
    requires Valid(today)
    ensures var r := Prune(out, tier, maxAge, today);
      && (tier !in out ==> r == Err(FileNotFoundError))
      && (tier in out && out[tier].File? ==> r == Err(NotADirectoryError))
      && (tier in out && out[tier].Dir? && !AllParse(out[tier].entries) ==> r == Err(ValueError))
      && (r.Ok? <==> tier in out && out[tier].Dir? && AllParse(out[tier].entries))
      && (r.Ok? ==> r.value.Keys == out.Keys && forall k :: k in out && k != tier ==> r.value[k] == out[k])
  {
  }

  /** After a successful pruning an entry of the tier is still there if and only if it is not a
      candidate more than `maxAge` days old, and what is still there is unchanged. */
  lemma PruneExact(out: map<string, Node>, tier: string, maxAge: int, today: Date, name: string)
    requires Valid(today) && Prune(out, tier, maxAge, today).Ok?
    ensures var es, rest := out[tier].entries, Prune(out, tier, maxAge, today).value[tier].entries;
      && (name in rest <==> name in es && !(IsCandidate(es, name) && Age(today, NameDate(name).value) > maxAge))
      && (name in rest ==> rest[name] == es[name])
  {
  }

  /** Directories and files the expression does not recognise are never deleted. */
  lemma NonCandidatesStay(out: map<string, Node>, tier: string, maxAge: int, today: Date, name: string)
    requires Valid(today) && Prune(out, tier, maxAge, today).Ok?
    requires name in out[tier].entries && !IsCandidate(out[tier].entries, name)
    ensures var rest := Prune(out, tier, maxAge, today).value[tier].entries;
      name in rest && rest[name] == out[tier].entries[name]
  {
  }

  /** The limit is exclusive, and a date in the future is never outdated: a candidate exactly `maxAge`
      days old, or dated after today, survives. */
  lemma BoundaryKept(out: map<string, Node>, tier: string, maxAge: int, today: Date, name: string)
    requires Valid(today) && Prune(out, tier, maxAge, today).Ok? && maxAge >= 0
    requires IsCandidate(out[tier].entries, name)
    requires var d := NameDate(name).value; Age(today, d) == maxAge || Before(today, d)
    ensures name in Prune(out, tier, maxAge, today).value[tier].entries
  {
    var d := NameDate(name).value;
    if Before(today, d) {
      OrdinalMonotone(today, d);
    }
  }

  /** Every candidate left in a pruned tier is at most `maxAge` days old. */
  lemma PrunedFresh(out: map<string, Node>, tier: string, maxAge: int, today: Date)
    requires Valid(today) && Prune(out, tier, maxAge, today).Ok?
    ensures Fresh(Prune(out, tier, maxAge, today).value[tier].entries, maxAge, today, [])
  {
  }

  /** The candidates of `es`, except the one named `spared`, have dates that read back and are at
      most `maxAge` days old. */
  predicate Fresh(es: map<string, Node>, maxAge: int, today: Date, spared: string)
    requires Valid(today)
  {
    forall name :: name in es && IsCandidate(es, name) && name != spared ==>
      NameDate(name).Ok? && Age(today, NameDate(name).value) <= maxAge
  }

  /** Pruning twice with the same limit and day removes nothing more. */
  lemma PruneIdempotent(out: map<string, Node>, tier: string, maxAge: int, today: Date)
    requires Valid(today) && Prune(out, tier, maxAge, today).Ok?
    ensures Prune(Prune(out, tier, maxAge, today).value, tier, maxAge, today) == Prune(out, tier, maxAge, today)
  {
    var es := out[tier].entries;
    var kept := Kept(es, maxAge, today);
    forall name | name in kept
      ensures IsCandidate(kept, name) == IsCandidate(es, name) && !Removable(kept, name, maxAge, today)
    {
    }
    assert AllParse(kept);
    assert Kept(kept, maxAge, today) == kept;
    var once := out[tier := Dir(kept)];
    assert once[tier].entries == kept;
    assert once[tier := Dir(kept)] == once;
  }

  /** One unreadable date among the candidates stops the run with a `ValueError`. */
  lemma UnreadableStops(out: map<string, Node>, tier: string, maxAge: int, today: Date, name: string)
    requires Valid(today) && tier in out && out[tier].Dir?
    requires IsCandidate(out[tier].entries, name) && NameDate(name).Err?
    ensures Prune(out, tier, maxAge, today) == Err(ValueError)
  {
  }

  // ---------------------------------------------------------------------------------------------------
  // Copying the day's archive

  /** The base name of the bundle `shutil.copy` copies. */
  const BundleName := "backup_final.zip"

  /** `shutil.copy(bundle, output_path / tier / name)`: a missing tier raises `FileNotFoundError`, a
      tier that is a regular file `NotADirectoryError`; an existing file of that name is overwritten,
      and an existing directory of that name receives the copy under the bundle's own name, which
      raises `IsADirectoryError` when that is a directory too. */
  function CopyInto(out: map<string, Node>, tier: string, name: string, art: seq<byte>): (r: Result<map<string, Node>, Error>)
  {
    if tier !in out then Err(FileNotFoundError)
    else if out[tier].File? then Err(NotADirectoryError)
    else
      var es := out[tier].entries;
      if name in es && es[name].Dir? then
        var inner := es[name].entries;
        if BundleName in inner && inner[BundleName].Dir? then Err(IsADirectoryError)
        else Ok(out[tier := Dir(es[name := Dir(inner[BundleName := File(art)])])])
      else Ok(out[tier := Dir(es[name := File(art)])])
  }

  /** The archive is in the tier under `name`, or, where `name` is a directory, inside it. */
  predicate Delivered(n: Node, name: string, art: seq<byte>)
  {
    && n.Dir? && name in n.entries
    && (n.entries[name] == File(art)
        || (n.entries[name].Dir? && BundleName in n.entries[name].entries && n.entries[name].entries[BundleName] == File(art)))
  }

  /** A copy into an existing tier succeeds unless it meets a directory inside a directory; it delivers
      the archive, overwriting a file of the same name, and leaves every other entry of the output
      directory and of the tier as it was. */
  lemma CopyOutcome(out: map<string, Node>, tier: string, name: string, art: seq<byte>)
    ensures var r := CopyInto(out, tier, name, art);
      && (tier !in out ==> r == Err(FileNotFoundError))
      && (tier in out && out[tier].File? ==> r == Err(NotADirectoryError))
      && (tier in out && out[tier].Dir? && (name !in out[tier].entries || out[tier].entries[name].File?) ==>
            r == Ok(out[tier := Dir(out[tier].entries[name := File(art)])]))
      && (r.Ok? ==> && r.value.Keys == out.Keys && Delivered(r.value[tier], name, art)
                    && r.value[tier].entries.Keys == out[tier].entries.Keys + {name}
                    && (forall k :: k in out && k != tier ==> r.value[k] == out[k])
                    && (forall k :: k in out[tier].entries && k != name ==> r.value[tier].entries[k] == out[tier].entries[k]))
  {
  }

  // ---------------------------------------------------------------------------------------------------
  // The tiers

  datatype Tier = Daily | Weekly | Monthly | Yearly

  function TierName(t: Tier): string
  {
    match t
    case Daily => "daily"
    case Weekly => "weekly"
    case Monthly => "monthly"
    case Yearly => "yearly"
  }

  /** Whether the day's archive goes into the tier: every day, on Sundays, on the first of a month,
      on the first of January. */
  predicate Admits(t: Tier, today: Date)
    requires Valid(today)
  {
    match t
    case Daily => true
    case Weekly => Weekday(today) == 6
    case Monthly => today.day == 1
    case Yearly => today.day == 1 && today.month == 1
  }

  /** The age limit of the tier, in days: a week, 31 days, 31 times 12 days; the yearly tier is never
      pruned. */
  function MaxAge(t: Tier): Option<int>
  {
    match t
    case Daily => Some(7)
    case Weekly => Some(31)
    case Monthly => Some(31 * 12)
    case Yearly => None
  }

  /** The block of `on_backup_completed` for one tier: nothing when the day does not admit the tier,
      otherwise pruning (where there is a limit) and then the copy. */
  function SaveTier(out: map<string, Node>, t: Tier, today: Date, art: seq<byte>): Result<map<string, Node>, Error>
    requires Valid(today)
  {
    if !Admits(t, today) then Ok(out)
    else match MaxAge(t)
      case None => CopyInto(out, TierName(t), FinalName(today), art)
      case Some(m) =>
        match Prune(out, TierName(t), m, today)
        case Err(e) => Err(e)
        case Ok(pruned) => CopyInto(pruned, TierName(t), FinalName(today), art)
  }

  /** The next block runs only when the previous ones raised nothing. */
  function AndThen(r: Result<map<string, Node>, Error>, t: Tier, today: Date, art: seq<byte>): Result<map<string, Node>, Error>
    requires Valid(today)
  {
    match r
    case Err(e) => Err(e)
    case Ok(out) => SaveTier(out, t, today, art)
  }

  /** `on_backup_completed`: the four blocks in the order of the source. */
  function Completed(out: map<string, Node>, today: Date, art: seq<byte>): Result<map<string, Node>, Error>
    requires Valid(today)
  {
    AndThen(AndThen(AndThen(SaveTier(out, Daily, today, art), Weekly, today, art), Monthly, today, art), Yearly, today, art)
  }

  /** What one block does: a tier the day does not admit is left alone; an admitted tier is pruned and
      receives the archive; no other entry of the output directory changes. */
  lemma SaveTierEffect(out: map<string, Node>, t: Tier, today: Date, art: seq<byte>)
    requires Valid(today) && SaveTier(out, t, today, art).Ok?
    ensures var r := SaveTier(out, t, today, art).value;
      && r.Keys == out.Keys
      && (forall k :: k in out && k != TierName(t) ==> r[k] == out[k])
      && (!Admits(t, today) ==> r == out)
      && (Admits(t, today) ==> TierName(t) in out && out[TierName(t)].Dir? && Delivered(r[TierName(t)], FinalName(today), art))
      && (Admits(t, today) && MaxAge(t).Some? ==> Fresh(r[TierName(t)].entries, MaxAge(t).value, today, FinalName(today)))
      && (Admits(t, today) && MaxAge(t).None? ==>
            forall k :: k in out[TierName(t)].entries && k != FinalName(today) ==>
              k in r[TierName(t)].entries && r[TierName(t)].entries[k] == out[TierName(t)].entries[k])
  {
    var name := TierName(t);
    if Admits(t, today) {
      match MaxAge(t)
      case None =>
        CopyOutcome(out, name, FinalName(today), art);
      case Some(m) =>
        PruneOutcome(out, name, m, today);
        var pruned := Prune(out, name, m, today).value;
        PrunedFresh(out, name, m, today);
        CopyOutcome(pruned, name, FinalName(today), art);
        CopyKeepsFresh(pruned[name].entries, SaveTier(out, t, today, art).value[name].entries, m, today, FinalName(today));
    }
  }

  /** Adding the day's file, or changing a directory, keeps the other candidates fresh. */
  lemma CopyKeepsFresh(es: map<string, Node>, rest: map<string, Node>, maxAge: int, today: Date, spared: string)
    requires Valid(today) && Fresh(es, maxAge, today, [])
    requires rest.Keys == es.Keys + {spared}
    requires forall k :: k in es && k != spared ==> rest[k] == es[k]
    ensures Fresh(rest, maxAge, today, spared)
  {
    forall name | name in rest && IsCandidate(rest, name) && name != spared
      ensures NameDate(name).Ok? && Age(today, NameDate(name).value) <= maxAge
    {
      assert IsCandidate(es, name);
    }
  }

  /** The tier names are distinct. */
  lemma TierNamesDistinct(s: Tier, t: Tier)
    ensures TierName(s) == TierName(t) <==> s == t
  {
  }

  /** The states between the blocks of a successful run. */
  lemma CompletedSteps(out: map<string, Node>, today: Date, art: seq<byte>) returns (o1: map<string, Node>, o2: map<string, Node>, o3: map<string, Node>)
    requires Valid(today) && Completed(out, today, art).Ok?
    ensures SaveTier(out, Daily, today, art) == Ok(o1)
    ensures SaveTier(o1, Weekly, today, art) == Ok(o2)
    ensures SaveTier(o2, Monthly, today, art) == Ok(o3)
    ensures SaveTier(o3, Yearly, today, art) == Completed(out, today, art)
  {
    o1 := SaveTier(out, Daily, today, art).value;
    o2 := SaveTier(o1, Weekly, today, art).value;
    o3 := SaveTier(o2, Monthly, today, art).value;
  }

  /** A block leaves the tiers of the other blocks as they were. */
  lemma SaveTierOther(out: map<string, Node>, s: Tier, today: Date, art: seq<byte>, t: Tier)
    requires Valid(today) && SaveTier(out, s, today, art).Ok? && s != t
    ensures var r := SaveTier(out, s, today, art).value;
      r.Keys == out.Keys && (TierName(t) in out ==> r[TierName(t)] == out[TierName(t)])
  {
    SaveTierEffect(out, s, today, art);
  }

  /** A successful run changes no entry of the output directory besides the four tiers, and leaves the
      tiers the day does not admit as they were. */
  lemma CompletedFrame(out: map<string, Node>, today: Date, art: seq<byte>, t: Tier)
    requires Valid(today) && Completed(out, today, art).Ok?
    ensures var r := Completed(out, today, art).value;
      && r.Keys == out.Keys
      && (forall k :: k in out && k !in TierNames ==> r[k] == out[k])
      && (!Admits(t, today) && TierName(t) in out ==> r[TierName(t)] == out[TierName(t)])
  {
    var o1, o2, o3 := CompletedSteps(out, today, art);
    SaveTierEffect(out, Daily, today, art);
    SaveTierEffect(o1, Weekly, today, art);
    SaveTierEffect(o2, Monthly, today, art);
    SaveTierEffect(o3, Yearly, today, art);
  }

  /** The state of tier `t` after a run is the state its own block left. */
  lemma CompletedTier(out: map<string, Node>, today: Date, art: seq<byte>, t: Tier) returns (before: map<string, Node>)
    requires Valid(today) && Completed(out, today, art).Ok?
    ensures SaveTier(before, t, today, art).Ok?
    ensures TierName(t) in before ==> TierName(t) in out && before[TierName(t)] == out[TierName(t)]
    ensures TierName(t) in Completed(out, today, art).value ==> TierName(t) in SaveTier(before, t, today, art).value
    ensures TierName(t) in Completed(out, today, art).value ==>
      Completed(out, today, art).value[TierName(t)] == SaveTier(before, t, today, art).value[TierName(t)]
  {
    var o1, o2, o3 := CompletedSteps(out, today, art);
    SaveTierEffect(out, Daily, today, art);
    SaveTierEffect(o1, Weekly, today, art);
    SaveTierEffect(o2, Monthly, today, art);
    SaveTierEffect(o3, Yearly, today, art);
    match t
    case Daily =>
      before := out;
      SaveTierOther(o1, Weekly, today, art, Daily);
      SaveTierOther(o2, Monthly, today, art, Daily);
      SaveTierOther(o3, Yearly, today, art, Daily);
    case Weekly =>
      before := o1;
      SaveTierOther(out, Daily, today, art, Weekly);
      SaveTierOther(o2, Monthly, today, art, Weekly);
      SaveTierOther(o3, Yearly, today, art, Weekly);
    case Monthly =>
      before := o2;
      SaveTierOther(out, Daily, today, art, Monthly);
      SaveTierOther(o1, Weekly, today, art, Monthly);
      SaveTierOther(o3, Yearly, today, art, Monthly);
    case Yearly =>
      before := o3;
      SaveTierOther(out, Daily, today, art, Yearly);
      SaveTierOther(o1, Weekly, today, art, Yearly);
      SaveTierOther(o2, Monthly, today, art, Yearly);
  }

  /** After a successful run every tier the day admits holds the day's archive, every pruned tier holds
      no candidate older than its limit except the day's own, and the yearly tier has lost nothing but
      what the copy overwrote. */
  lemma CompletedEffect(out: map<string, Node>, today: Date, art: seq<byte>, t: Tier)
    requires Valid(today) && Completed(out, today, art).Ok? && Admits(t, today)
    ensures var r := Completed(out, today, art).value;
      && TierName(t) in out && out[TierName(t)].Dir? && TierName(t) in r
      && Delivered(r[TierName(t)], FinalName(today), art)
      && (MaxAge(t).Some? ==> Fresh(r[TierName(t)].entries, MaxAge(t).value, today, FinalName(today)))
      && (MaxAge(t).None? ==>
            forall k :: k in out[TierName(t)].entries && k != FinalName(today) ==>
              k in r[TierName(t)].entries && r[TierName(t)].entries[k] == out[TierName(t)].entries[k])
  {
    var before := CompletedTier(out, today, art, t);
    SaveTierEffect(before, t, today, art);
    CompletedFrame(out, today, art, t);
  }

  const TierNames := {"daily", "weekly", "monthly", "yearly"}

  /** The state a block that raised leaves behind: the day admits the tier; a pruning that raised
      `ValueError` has deleted some of the outdated archives, one that raised anything else has changed
      nothing, and a copy that raised leaves the pruned tier as the pruning left it. */
  predicate SaveFailed(before: map<string, Node>, after: map<string, Node>, t: Tier, today: Date, art: seq<byte>)
    requires Valid(today)
  {
    && Admits(t, today) && SaveTier(before, t, today, art).Err?
    && match MaxAge(t)
      case None => after == before
      case Some(m) =>
        match Prune(before, TierName(t), m, today)
        case Ok(pruned) => after == pruned
        case Err(e) => if e == ValueError then PartlyPruned(before, after, TierName(t), m, today) else after == before
  }

  /** The state a run that raised leaves behind: the blocks before the first one that raised have done
      their work, that one has left the state `SaveFailed` describes, and the later ones never ran. */
  predicate CompletedFailed(out: map<string, Node>, after: map<string, Node>, today: Date, art: seq<byte>)
    requires Valid(today)
  {
    var r1 := SaveTier(out, Daily, today, art);
    if r1.Err? then SaveFailed(out, after, Daily, today, art)
    else
      var r2 := SaveTier(r1.value, Weekly, today, art);
      if r2.Err? then SaveFailed(r1.value, after, Weekly, today, art)
      else
        var r3 := SaveTier(r2.value, Monthly, today, art);
        if r3.Err? then SaveFailed(r2.value, after, Monthly, today, art)
        else SaveFailed(r3.value, after, Yearly, today, art)
  }

  /** A block that raised has changed no entry of the output directory but its own tier, and within
      that tier has only deleted archives. */
  lemma SaveFailedOther(before: map<string, Node>, after: map<string, Node>, t: Tier, today: Date, art: seq<byte>)
    requires Valid(today) && SaveFailed(before, after, t, today, art)
    ensures after.Keys == before.Keys
    ensures forall k :: k in before && k != TierName(t) ==> after[k] == before[k]
    ensures TierName(t) in before && before[TierName(t)].Dir? ==>
      TierName(t) in after && after[TierName(t)].Dir? && after[TierName(t)].entries.Keys <= before[TierName(t)].entries.Keys
  {
    if MaxAge(t).Some? {
      PruneOutcome(before, TierName(t), MaxAge(t).value, today);
    }
  }

  /** A run that raised has changed no entry of the output directory besides the four tiers, and
      once the daily block has done its work the daily tier keeps the day's archive, whichever later
      block raised. */
  lemma CompletedFailedFrame(out: map<string, Node>, after: map<string, Node>, today: Date, art: seq<byte>)
    requires Valid(today) && CompletedFailed(out, after, today, art)
    ensures after.Keys == out.Keys
    ensures forall k :: k in out && k !in TierNames ==> after[k] == out[k]
    ensures SaveTier(out, Daily, today, art).Ok? ==> Delivered(after["daily"], FinalName(today), art)
  {
    var r1 := SaveTier(out, Daily, today, art);
    if r1.Err? {
      SaveFailedOther(out, after, Daily, today, art);
      return;
    }
    var o1 := r1.value;
    SaveTierEffect(out, Daily, today, art);
    var r2 := SaveTier(o1, Weekly, today, art);
    if r2.Err? {
      SaveFailedOther(o1, after, Weekly, today, art);
      return;
    }
    var o2 := r2.value;
    SaveTierEffect(o1, Weekly, today, art);
    var r3 := SaveTier(o2, Monthly, today, art);
    if r3.Err? {
      SaveFailedOther(o2, after, Monthly, today, art);
      return;
    }
    var o3 := r3.value;
    SaveTierEffect(o2, Monthly, today, art);
    SaveFailedOther(o3, after, Yearly, today, art);
  }


  /** The run raises as soon as the daily tier is missing. */
  lemma CompletedNeedsDaily(out: map<string, Node>, today: Date, art: seq<byte>)
    requires Valid(today) && "daily" !in out
    ensures Completed(out, today, art) == Err(FileNotFoundError)
  {
  }

  // ---------------------------------------------------------------------------------------------------
  // The loop of `remove_outdated_backups`

  /** The tier's entries while the loop still has the candidates `pending` to look at: the removable
      candidates already looked at are gone. */
  function KeptExcept(es: map<string, Node>, pending: set<string>, maxAge: int, today: Date): map<string, Node>
    requires Valid(today)
  {
    map name | name in es && !(name !in pending && Removable(es, name, maxAge, today)) :: es[name]
  }

  /** Looking at one more candidate deletes it exactly when it is removable. */
  lemma KeptExceptStep(es: map<string, Node>, pending: set<string>, name: string, maxAge: int, today: Date)
    requires Valid(today) && name in pending
    ensures KeptExcept(es, pending - {name}, maxAge, today)
      == if Removable(es, name, maxAge, today) then KeptExcept(es, pending, maxAge, today) - {name}
         else KeptExcept(es, pending, maxAge, today)
  {
  }

  /** Wherever the loop stops, the tier has lost removable candidates and nothing else. */
  lemma KeptExceptPartly(before: map<string, Node>, tier: string, es: map<string, Node>, pending: set<string>, maxAge: int, today: Date)
    requires Valid(today) && tier in before && before[tier] == Dir(es)
    ensures PartlyPruned(before, before[tier := Dir(KeptExcept(es, pending, maxAge, today))], tier, maxAge, today)
  {
  }

  /** With nothing left to look at, the loop has left exactly what the pruning keeps. */
  lemma KeptExceptDone(es: map<string, Node>, maxAge: int, today: Date)
    requires Valid(today)
    ensures KeptExcept(es, {}, maxAge, today) == Kept(es, maxAge, today)
  {
  }

  /** Before the loop nothing is deleted. */
  lemma KeptExceptStart(es: map<string, Node>, pending: set<string>, maxAge: int, today: Date)
    requires Valid(today)
    requires forall name :: name in es && IsCandidate(es, name) ==> name in pending
    ensures KeptExcept(es, pending, maxAge, today) == es
  {
  }

  // ---------------------------------------------------------------------------------------------------
  // Creating the tiers

  /** `os.makedirs(output_path / name, exist_ok=True)`: an existing directory is fine, an existing
      regular file raises `FileExistsError`, and a missing directory is created empty. */
  function MakeDir(out: map<string, Node>, name: string): Result<map<string, Node>, Error>
  {
    if name !in out then Ok(out[name := Dir(map[])])
    else if out[name].Dir? then Ok(out)
    else Err(FileExistsError)
  }

  function MakeDirThen(r: Result<map<string, Node>, Error>, name: string): Result<map<string, Node>, Error>
  {
    match r
    case Err(e) => Err(e)
    case Ok(out) => MakeDir(out, name)
  }

  /** The four `os.makedirs` calls of `main`, in their order. */
  function MakeTiers(out: map<string, Node>): Result<map<string, Node>, Error>
  {
    MakeDirThen(MakeDirThen(MakeDirThen(MakeDir(out, "daily"), "weekly"), "monthly"), "yearly")
  }

  /** One `os.makedirs` call. */
  lemma MakeDirExact(out: map<string, Node>, name: string)
    ensures MakeDir(out, name).Ok? <==> name !in out || out[name].Dir?
    ensures MakeDir(out, name).Err? ==> MakeDir(out, name).error == FileExistsError
    ensures MakeDir(out, name).Ok? ==>
      var r := MakeDir(out, name).value;
      && r.Keys == out.Keys + {name}
      && (forall k :: k in out ==> r[k] == out[k])
      && r[name].Dir? && (name !in out ==> r[name] == Dir(map[]))
  {
  }

  /** A tier's name is free for `os.makedirs`: nothing, or a directory, holds it. */
  predicate Free(out: map<string, Node>, name: string)
  {
    name !in out || out[name].Dir?
  }

  /** Creating the tiers fails, with `FileExistsError`, exactly when a regular file holds a tier's
      name. */
  lemma MakeTiersOk(out: map<string, Node>)
    ensures MakeTiers(out).Ok? <==> Free(out, "daily") && Free(out, "weekly") && Free(out, "monthly") && Free(out, "yearly")
    ensures MakeTiers(out).Err? ==> MakeTiers(out).error == FileExistsError
  {
    var r1 := MakeDir(out, "daily");
    if r1.Ok? {
      MakeDirExact(out, "daily");
      var r2 := MakeDir(r1.value, "weekly");
      assert Free(r1.value, "weekly") == Free(out, "weekly");
      assert Free(r1.value, "monthly") == Free(out, "monthly");
      assert Free(r1.value, "yearly") == Free(out, "yearly");
      if r2.Ok? {
        MakeDirExact(r1.value, "weekly");
        assert Free(r2.value, "monthly") == Free(out, "monthly");
        assert Free(r2.value, "yearly") == Free(out, "yearly");
        var r3 := MakeDir(r2.value, "monthly");
        if r3.Ok? {
          MakeDirExact(r2.value, "monthly");
          assert Free(r3.value, "yearly") == Free(out, "yearly");
        }
      }
    }
  }

  /** After a successful creation every tier is a directory, the tiers that were missing are empty,
      and everything that was there before is unchanged. */
  lemma MakeTiersResult(out: map<string, Node>)
    requires MakeTiers(out).Ok?
    ensures var r := MakeTiers(out).value;
      && r.Keys == out.Keys + TierNames
      && (forall k :: k in out ==> r[k] == out[k])
      && (forall k :: k in TierNames ==> r[k].Dir?)
      && (forall k :: k in TierNames && k !in out ==> r[k] == Dir(map[]))
  {
    var r1 := MakeDir(out, "daily").value;
    var r2 := MakeDir(r1, "weekly").value;
    var r3 := MakeDir(r2, "monthly").value;
    MakeDirExact(out, "daily");
    MakeDirExact(r1, "weekly");
    MakeDirExact(r2, "monthly");
    MakeDirExact(r3, "yearly");
    var r := MakeTiers(out).value;
    assert r.Keys == out.Keys + TierNames;
    assert forall k :: k in out ==> r[k] == out[k];
    forall k | k in TierNames
      ensures r[k].Dir? && (k !in out ==> r[k] == Dir(map[]))
    {
      assert k == "daily" || k == "weekly" || k == "monthly" || k == "yearly";
    }
  }

  /** The state the four `os.makedirs` calls leave when one of them raises: the calls before it have
      done their work, a regular file holds the name of the one that raised, and the later ones never
      ran. */
  predicate MakeTiersFailed(before: map<string, Node>, after: map<string, Node>)
  {
    var r1 := MakeDir(before, "daily");
    if r1.Err? then StoppedAt(before, after, "daily")
    else
      var r2 := MakeDir(r1.value, "weekly");
      if r2.Err? then StoppedAt(r1.value, after, "weekly")
      else
        var r3 := MakeDir(r2.value, "monthly");
        if r3.Err? then StoppedAt(r2.value, after, "monthly")
        else StoppedAt(r3.value, after, "yearly")
  }

  /** `os.makedirs(name)` raised on `out`: a regular file holds the name, and nothing has changed. */
  predicate StoppedAt(out: map<string, Node>, after: map<string, Node>, name: string)
  {
    name in out && out[name].File? && after == out
  }

  /** A creation that raised has only added empty tier directories, has changed nothing that was
      there, and leaves a regular file under one of the tier names; it is exactly the case where
      `MakeTiers` fails. */
  lemma MakeTiersFailedFrame(before: map<string, Node>, after: map<string, Node>)
    requires MakeTiersFailed(before, after)
    ensures MakeTiers(before).Err?
    ensures before.Keys <= after.Keys <= before.Keys + TierNames
    ensures forall k :: k in before ==> after[k] == before[k]
    ensures forall k :: k in after && k !in before ==> after[k] == Dir(map[])
    ensures exists k :: k in TierNames && k in after && after[k].File?
  {
    var r1 := MakeDir(before, "daily");
    if r1.Err? {
      assert "daily" in TierNames;
      return;
    }
    MakeDirExact(before, "daily");
    var r2 := MakeDir(r1.value, "weekly");
    if r2.Err? {
      assert "weekly" in TierNames;
      return;
    }
    MakeDirExact(r1.value, "weekly");
    var r3 := MakeDir(r2.value, "monthly");
    if r3.Err? {
      assert "monthly" in TierNames;
      return;
    }
    MakeDirExact(r2.value, "monthly");
    assert "yearly" in TierNames;
  }

  /** Creating the tiers a second time changes nothing. */
  lemma MakeTiersIdempotent(out: map<string, Node>)
    requires MakeTiers(out).Ok?
    ensures MakeTiers(MakeTiers(out).value) == MakeTiers(out)
  {
    MakeTiersResult(out);
    var r := MakeTiers(out).value;
    assert MakeDir(r, "daily") == Ok(r);
  }

  // ---------------------------------------------------------------------------------------------------
  // The output directory

  /** The output directory, whose entries the script changes in place. */
  class OutputDir {
    var entries: map<string, Node>

    constructor(entries: map<string, Node>)
      ensures this.entries == entries
    {
      this.entries := entries;
    }

    /** `os.makedirs` on each tier. A failure leaves the directories created before it. */
    method MakeTierDirs() returns (r: Outcome<Error>)
      modifies this
      ensures r.Pass? <==> MakeTiers(old(entries)).Ok?
      ensures r.Pass? ==> entries == MakeTiers(old(entries)).value
      ensures r.Fail? ==> r.error == FileExistsError
      ensures r.Fail? ==> MakeTiersFailed(old(entries), entries)
      ensures r.Fail? ==> entries.Keys <= old(entries).Keys + TierNames
      ensures forall k :: k in old(entries) ==> k in entries && entries[k] == old(entries)[k]
    {
      r := MakeDirectory("daily");
      if r.Fail? { return; }
      r := MakeDirectory("weekly");
      if r.Fail? { return; }
      r := MakeDirectory("monthly");
      if r.Fail? { return; }
      r := MakeDirectory("yearly");
    }

    method MakeDirectory(name: string) returns (r: Outcome<Error>)
      modifies this
      ensures r.Pass? <==> MakeDir(old(entries), name).Ok?
      ensures r.Pass? ==> entries == MakeDir(old(entries), name).value
      ensures r.Fail? ==> r.error == FileExistsError && entries == old(entries)
    {
      if name !in entries {
        entries := entries[name := Dir(map[])];
      } else if entries[name].File? {
        return Fail(FileExistsError);
      }
      return Pass;
    }

    /** `remove_outdated_backups(output_path / tier, maxAge)`: the candidates are looked at one by one,
        in an order the listing decides, and each one more than `maxAge` days old is deleted; a date
        `strptime` rejects stops the loop with what it has deleted so far. */
    method RemoveOutdatedBackups(tier: string, maxAge: int, today: Date) returns (r: Outcome<Error>)
      requires Valid(today)
      modifies this
      ensures r.Pass? <==> Prune(old(entries), tier, maxAge, today).Ok?
      ensures r.Pass? ==> entries == Prune(old(entries), tier, maxAge, today).value
      ensures r.Fail? ==> r.error == Prune(old(entries), tier, maxAge, today).error
      ensures r.Fail? && r.error != ValueError ==> entries == old(entries)
      ensures r.Fail? && r.error == ValueError ==> PartlyPruned(old(entries), entries, tier, maxAge, today)
    {
      if tier !in entries {
        return Fail(FileNotFoundError);
      }
      if entries[tier].File? {
        return Fail(NotADirectoryError);
      }
      r := DeleteOutdated(tier, entries[tier].entries, maxAge, today);
    }

    /** The loop of `remove_outdated_backups` over the listing of a tier that is a directory. */
    method DeleteOutdated(tier: string, listing: map<string, Node>, maxAge: int, today: Date) returns (r: Outcome<Error>)
      requires Valid(today) && tier in entries && entries[tier] == Dir(listing)
      modifies this
      ensures r.Pass? <==> AllParse(listing)
      ensures r.Pass? ==> entries == old(entries)[tier := Dir(Kept(listing, maxAge, today))]
      ensures r.Fail? ==> r.error == ValueError && PartlyPruned(old(entries), entries, tier, maxAge, today)
    {
      var before := entries;
      var matches := set name | name in listing && IsCandidate(listing, name);
      var todo := matches;
      var files := listing;
      KeptExceptStart(listing, todo, maxAge, today);
      while todo != {}
        invariant todo <= matches
        invariant before == old(entries)
        invariant entries == before[tier := Dir(files)]
        invariant forall name :: name in matches && name !in todo ==> NameDate(name).Ok?
        invariant files == KeptExcept(listing, todo, maxAge, today)
        decreases |todo|
      {
        var name :| name in todo;
        var parsed := ParseDate(MatchBackupName(name).value);
        if parsed.Err? {
          assert IsCandidate(listing, name) && NameDate(name).Err?;
          KeptExceptPartly(before, tier, listing, todo, maxAge, today);
          return Fail(parsed.error);
        }
        KeptExceptStep(listing, todo, name, maxAge, today);
        var age := ToOrdinal(today) - ToOrdinal(parsed.value);
        if age > maxAge {
          files := files - {name};
          entries := before[tier := Dir(files)];
        }
        todo := todo - {name};
      }
      KeptExceptDone(listing, maxAge, today);
      return Pass;
    }

    /** `shutil.copy` of the bundle into the tier under `name`. */
    method Copy(tier: string, name: string, art: seq<byte>) returns (r: Outcome<Error>)
      modifies this
      ensures r.Pass? <==> CopyInto(old(entries), tier, name, art).Ok?
      ensures r.Pass? ==> entries == CopyInto(old(entries), tier, name, art).value
      ensures r.Fail? ==> r.error == CopyInto(old(entries), tier, name, art).error && entries == old(entries)
    {
      var c := CopyInto(entries, tier, name, art);
      if c.Err? {
        return Fail(c.error);
      }
      entries := c.value;
      return Pass;
    }

    /** One block of `on_backup_completed`. */
    method Save(t: Tier, today: Date, art: seq<byte>) returns (r: Outcome<Error>)
      requires Valid(today)
      modifies this
      ensures r.Pass? <==> SaveTier(old(entries), t, today, art).Ok?
      ensures r.Pass? ==> entries == SaveTier(old(entries), t, today, art).value
      ensures r.Fail? ==> r.error == SaveTier(old(entries), t, today, art).error
      ensures r.Fail? ==> SaveFailed(old(entries), entries, t, today, art)
    {
      if !Admits(t, today) {
        return Pass;
      }
      var limit := MaxAge(t);
      if limit.Some? {
        r := RemoveOutdatedBackups(TierName(t), limit.value, today);
        if r.Fail? {
          return;
        }
      }
      r := Copy(TierName(t), FinalName(today), art);
    }

    /** `on_backup_completed`: the daily, weekly, monthly and yearly blocks, in that order; the first
        one that raises ends the run. */
    method OnBackupCompleted(today: Date, art: seq<byte>) returns (r: Outcome<Error>)
      requires Valid(today)
      modifies this
      ensures r.Pass? <==> Completed(old(entries), today, art).Ok?
      ensures r.Pass? ==> entries == Completed(old(entries), today, art).value
      ensures r.Fail? ==> r.error == Completed(old(entries), today, art).error
      ensures r.Fail? ==> CompletedFailed(old(entries), entries, today, art)
    {
      r := Save(Daily, today, art);
      if r.Fail? {
        return;
      }
      r := Save(Weekly, today, art);
      if r.Fail? {
        return;
      }
      r := Save(Monthly, today, art);
      if r.Fail? {
        return;
      }
      r := Save(Yearly, today, art);
    }
  }

  // ---------------------------------------------------------------------------------------------------
  // Examples

  /** `backup_2024-02-30.zip` is recognised, but February 2024 has no 30th: its tier cannot be pruned. */
  lemma ImpossibleDateStops(out: map<string, Node>, tier: string, maxAge: int, today: Date, content: seq<byte>)
    requires Valid(today) && tier in out && out[tier].Dir?
    requires out[tier].entries == map["backup_2024-02-30.zip" := File(content)]
    ensures Prune(out, tier, maxAge, today) == Err(ValueError)
  {
    var name := "backup_2024-02-30.zip";
    assert "2024" + "-" + "02" + "-" + "30" == "2024-02-30";
    assert Prefix + "2024" + "-" + "02" + "-" + "30" + Suffix + "" == name;
    MatchOf("2024", "02", "30", "");
    ParseRejectsFebruary30();
    assert IsCandidate(out[tier].entries, name);
    UnreadableStops(out, tier, maxAge, today, name);
  }

  /** On Sunday 2024-10-13 the archive goes into the daily and the weekly tier only. */
  lemma AdmittedOnSunday()
    ensures var d := Date(2024, 10, 13);
      Admits(Daily, d) && Admits(Weekly, d) && !Admits(Monthly, d) && !Admits(Yearly, d)
  {
    KnownDays();
  }
}
