/** Merging a signed round entry into the voting configuration, and recording acknowledgments in a
    pull request's text (internal/admin/config_pr.go). Parsing and printing JSON are not modelled. */
module ConfigMerge {
  import opened Field
  import opened SignatureMerge

  const AUTH_VERSION_V1: nat := 1

  const ED25519: string := "ed25519"

  datatype TrustedKey = TrustedKey(keyId: string, alg: string, pubkey: string)

  datatype Entry = Entry(eaPk: string, authVersion: nat, signatures: seq<Signature>)

  datatype Config<L> = Config(layout: L, rounds: map<string, Entry>)

  /** The trusted keys and the primitives behind them: the signed payload of an entry (None when its
      key does not decode), Ed25519 verification, and the verification of a whole entry. */
  datatype Env = Env(
    trusted: seq<TrustedKey>,
    payload: (string, string, nat) -> Option<string>,
    verifies: (string, string, string) -> bool,
    entryVerifies: (string, Entry) -> bool)

  // ----- key id resolution

  predicate Matches(env: Env, x: Signature, key: TrustedKey, payload: string) {
    x.alg == ED25519 && key.alg == ED25519 && env.verifies(key.pubkey, payload, x.sig)
  }

  /** The first trusted key that matches, its own id first when `own` is set. */
  function FindKey(env: Env, keys: seq<TrustedKey>, x: Signature, payload: string, own: bool): Option<string> {
    if keys == [] then None
    else if (own ==> keys[0].keyId == x.keyId) && Matches(env, x, keys[0], payload) then Some(keys[0].keyId)
    else FindKey(env, keys[1..], x, payload, own)
  }

  function Resolve(env: Env, x: Signature, payload: string): Signature {
    if x.alg != ED25519 then x
    else
      var own := FindKey(env, env.trusted, x, payload, true);
      var any := FindKey(env, env.trusted, x, payload, false);
      if own.Some? then x.(keyId := own.value)
      else if any.Some? then x.(keyId := any.value)
      else x
  }

  ghost predicate Attests(env: Env, x: Signature, payload: string, id: string) {
    exists key :: key in env.trusted && key.keyId == id && Matches(env, x, key, payload)
  }

  lemma {:induction false} FindKeyFinds(env: Env, keys: seq<TrustedKey>, x: Signature, payload: string, own: bool)
    ensures var r := FindKey(env, keys, x, payload, own);
      && (r.Some? && own ==> r.value == x.keyId)
      && (r.Some? ==> exists key :: key in keys && key.keyId == r.value && Matches(env, x, key, payload))
      && (r.None? ==> forall key :: key in keys && (own ==> key.keyId == x.keyId) ==> !Matches(env, x, key, payload))
  {
    if keys != [] {
      FindKeyFinds(env, keys[1..], x, payload, own);
      assert keys[0] in keys;
      assert forall key :: key in keys <==> key == keys[0] || key in keys[1..];
    }
  }

  /** Resolution renames a signature to a trusted key that verifies it, leaves it alone when its own id
      already does or when no key does, and is stable. */
  lemma ResolveMeaning(env: Env, x: Signature, payload: string)
    ensures var r := Resolve(env, x, payload);
      && r.alg == x.alg && r.sig == x.sig
      && (Attests(env, x, payload, x.keyId) ==> r == x)
      && ((exists id :: Attests(env, x, payload, id)) <==> Attests(env, x, payload, r.keyId))
      && (!Attests(env, x, payload, r.keyId) ==> r == x)
      && Resolve(env, r, payload) == r
  {
    FindKeyFinds(env, env.trusted, x, payload, true);
    FindKeyFinds(env, env.trusted, x, payload, false);
    var r := Resolve(env, x, payload);
    FindKeyFinds(env, env.trusted, r, payload, true);
    FindKeyFinds(env, env.trusted, r, payload, false);
    assert forall key :: Matches(env, r, key, payload) <==> Matches(env, x, key, payload);
  }

  /** A key id attests a signature if and only if a trusted Ed25519 key of that id verifies it, as an
      Ed25519 signature, over the text. */
  lemma AttestsExact(env: Env, x: Signature, payload: string, id: string)
    ensures Attests(env, x, payload, id) <==>
      exists key :: key in env.trusted && key.keyId == id && key.alg == "ed25519" && x.alg == "ed25519"
        && env.verifies(key.pubkey, payload, x.sig)
  {
    forall key | key in env.trusted
      ensures Matches(env, x, key, payload) <==>
        key.alg == "ed25519" && x.alg == "ed25519" && env.verifies(key.pubkey, payload, x.sig)
    {
    }
  }

  /** A signature that its own id does not attest gets the id of the first trusted key that verifies it. */
  lemma {:induction false} FirstKey(env: Env, keys: seq<TrustedKey>, x: Signature, payload: string, i: nat)
    requires i < |keys| && Matches(env, x, keys[i], payload)
    requires forall j :: 0 <= j < i ==> !Matches(env, x, keys[j], payload)
    ensures FindKey(env, keys, x, payload, false) == Some(keys[i].keyId)
  {
    if i > 0 {
      FirstKey(env, keys[1..], x, payload, i - 1);
    }
  }

  lemma ResolvesToFirst(env: Env, x: Signature, payload: string, i: nat)
    requires !Attests(env, x, payload, x.keyId)
    requires i < |env.trusted| && Matches(env, x, env.trusted[i], payload)
    requires forall j :: 0 <= j < i ==> !Matches(env, x, env.trusted[j], payload)
    ensures Resolve(env, x, payload) == x.(keyId := env.trusted[i].keyId)
  {
    FirstKey(env, env.trusted, x, payload, i);
    FindKeyFinds(env, env.trusted, x, payload, true);
  }

  function ResolveAll(env: Env, xs: seq<Signature>, payload: string): (rs: seq<Signature>)
    ensures |rs| == |xs|
  {
    seq(|xs|, i requires 0 <= i < |xs| => Resolve(env, xs[i], payload))
  }

  function ResolveEntry(env: Env, id: string, e: Entry): Result<Entry> {
    match env.payload(id, e.eaPk, e.authVersion)
    case None => Err
    case Some(payload) => Ok(e.(signatures := ResolveAll(env, e.signatures, payload)))
  }

  // ----- merging an entry

  /** The preserved entries, those of the incoming version with resolved key ids. */
  function ResolvePreserved(env: Env, id: string, version: nat, es: seq<Entry>): Result<seq<Entry>> {
    if es == [] then Ok([])
    else
      var n := |es| - 1;
      match ResolvePreserved(env, id, version, es[..n])
      case Err => Err
      case Ok(front) =>
        if es[n].authVersion != version then Ok(front + [es[n]])
        else match ResolveEntry(env, id, es[n])
          case Err => Err
          case Ok(e) => Ok(front + [e])
  }

  predicate Compatible(e: Entry, incoming: Entry) {
    e.eaPk == incoming.eaPk && (e.authVersion == AUTH_VERSION_V1 || e.authVersion == incoming.authVersion)
  }

  /** The signatures of the entries, without those of the legacy version, which cover another text. */
  function Gather(es: seq<Entry>): seq<Signature> {
    if es == [] then []
    else
      var n := |es| - 1;
      Gather(es[..n]) + if es[n].authVersion == AUTH_VERSION_V1 then [] else es[n].signatures
  }

  function Targets(rounds: map<string, Entry>, id: string, preserved: seq<Entry>): seq<Entry> {
    (if id in rounds then [rounds[id]] else []) + preserved
  }

  /** The outcome of a merge. */
  function MergeEntry<L(==)>(env: Env, cfg: Config<L>, id: string, entry: Entry, layout: L,
                             preserved: seq<Entry>): Result<Config<L>>
  {
    if cfg.layout != layout then Err
    else match ResolveEntry(env, id, entry)
      case Err => Err
      case Ok(incoming) =>
        match ResolvePreserved(env, id, incoming.authVersion, preserved)
        case Err => Err
        case Ok(kept) =>
          var targets := Targets(cfg.rounds, id, kept);
          if exists i :: 0 <= i < |targets| && !Compatible(targets[i], incoming) then Err
          else
            var merged := incoming.(signatures := Merge([], Gather(targets) + incoming.signatures));
            var rounds := cfg.rounds[id := merged];
            if exists k :: k in rounds && !env.entryVerifies(k, rounds[k]) then Err
            else Ok(cfg.(rounds := rounds))
  }

  method ResolvePreservedEntries(env: Env, id: string, version: nat, es: seq<Entry>) returns (r: Result<seq<Entry>>)
    ensures r == ResolvePreserved(env, id, version, es)
  {
    var kept: seq<Entry> := [];
    for n := 0 to |es|
      invariant ResolvePreserved(env, id, version, es[..n]) == Ok(kept)
    {
      assert es[..n + 1][..n] == es[..n];
      var e := es[n];
      if e.authVersion == version {
        var resolved := ResolveEntry(env, id, e);
        if resolved.Err? {
          ResolvePreservedStops(env, id, version, es, n + 1);
          return Err;
        }
        e := resolved.value;
      }
      kept := kept + [e];
    }
    assert es[..|es|] == es;
    return Ok(kept);
  }

  /** x is y, possibly renamed, and if some trusted key verifies it then the one it names does. */
  ghost predicate RenamedFrom(env: Env, payload: string, y: Signature, x: Signature) {
    && x.alg == y.alg && x.sig == y.sig
    && (Attests(env, y, payload, y.keyId) ==> x == y)
    && ((exists key :: key in env.trusted && Matches(env, x, key, payload)) ==> Attests(env, x, payload, x.keyId))
    && (!(exists key :: key in env.trusted && Matches(env, x, key, payload)) ==> x == y)
  }

  lemma ResolveRenames(env: Env, y: Signature, payload: string)
    ensures RenamedFrom(env, payload, y, Resolve(env, y, payload))
  {
    ResolveMeaning(env, y, payload);
    var x := Resolve(env, y, payload);
    hide Resolve;
    assert forall key :: Matches(env, x, key, payload) <==> Matches(env, y, key, payload);
    if exists key :: key in env.trusted && Matches(env, x, key, payload) {
      var key :| key in env.trusted && Matches(env, x, key, payload);
      assert Attests(env, y, payload, key.keyId);
    }
  }

  /** The entry's text, and its signatures one by one under the names of the keys that verify them. */
  ghost predicate ResolvedFrom(env: Env, id: string, y: Entry, x: Entry) {
    && x.eaPk == y.eaPk && x.authVersion == y.authVersion && |x.signatures| == |y.signatures|
    && env.payload(id, y.eaPk, y.authVersion).Some?
    && forall i :: 0 <= i < |x.signatures| ==>
      RenamedFrom(env, env.payload(id, y.eaPk, y.authVersion).value, y.signatures[i], x.signatures[i])
  }

  /** Resolving an entry fails exactly when its signed text cannot be formed. */
  lemma ResolveEntryExact(env: Env, id: string, y: Entry)
    ensures ResolveEntry(env, id, y).Ok? <==> env.payload(id, y.eaPk, y.authVersion).Some?
    ensures ResolveEntry(env, id, y).Ok? ==> ResolvedFrom(env, id, y, ResolveEntry(env, id, y).value)
  {
    hide Resolve, RenamedFrom;
    if ResolveEntry(env, id, y).Ok? {
      var payload := env.payload(id, y.eaPk, y.authVersion).value;
      forall i | 0 <= i < |y.signatures|
        ensures RenamedFrom(env, payload, y.signatures[i], ResolveEntry(env, id, y).value.signatures[i])
      {
        ResolveRenames(env, y.signatures[i], payload);
      }
    }
  }

  /** Resolving the preserved entries fails exactly when the signed text of one of the incoming version
      cannot be formed; entries of other versions are unchanged, position by position. */
  lemma {:induction false} ResolvePreservedExact(env: Env, id: string, version: nat, es: seq<Entry>)
    ensures var r := ResolvePreserved(env, id, version, es);
      && (r.Ok? <==> forall i :: 0 <= i < |es| && es[i].authVersion == version ==>
        env.payload(id, es[i].eaPk, version).Some?)
      && (r.Ok? ==> |r.value| == |es| && forall i :: 0 <= i < |es| ==>
        if es[i].authVersion == version then ResolvedFrom(env, id, es[i], r.value[i]) else r.value[i] == es[i])
  {
    hide ResolveEntry, ResolvedFrom;
    if es != [] {
      var n := |es| - 1;
      ResolvePreservedExact(env, id, version, es[..n]);
      ResolveEntryExact(env, id, es[n]);
      assert forall i :: 0 <= i < n ==> es[..n][i] == es[i];
    }
  }

  lemma {:induction false} ResolvePreservedStops(env: Env, id: string, version: nat, es: seq<Entry>, n: nat)
    requires n <= |es| && ResolvePreserved(env, id, version, es[..n]).Err?
    ensures ResolvePreserved(env, id, version, es).Err?
    decreases |es|
  {
    if n < |es| {
      var m := |es| - 1;
      assert es[..m][..n] == es[..n];
      ResolvePreservedStops(env, id, version, es[..m], n);
    } else {
      assert es[..n] == es;
    }
  }

  method MergeTargets(targets: seq<Entry>, incoming: Entry) returns (r: Result<seq<Signature>>)
    ensures r.Ok? <==> forall i :: 0 <= i < |targets| ==> Compatible(targets[i], incoming)
    ensures r.Ok? ==> r.value == Merge([], Gather(targets))
  {
    hide Merge;
    var signatures: seq<Signature> := [];
    assert Merge([], []) == [] by { MergeNothing(); }
    for n := 0 to |targets|
      invariant forall i :: 0 <= i < n ==> Compatible(targets[i], incoming)
      invariant signatures == Merge([], Gather(targets[..n]))
    {
      var e := targets[n];
      assert targets[..n + 1][..n] == targets[..n];
      if e.eaPk != incoming.eaPk {
        return Err;
      }
      if e.authVersion == AUTH_VERSION_V1 {
        assert Gather(targets[..n]) + [] == Gather(targets[..n]);
      } else if e.authVersion == incoming.authVersion {
        MergeAppend([], Gather(targets[..n]), e.signatures);
        signatures := MergeSignatures(signatures, e.signatures);
      } else {
        return Err;
      }
    }
    assert targets[..|targets|] == targets;
    return Ok(signatures);
  }

  lemma MergeNothing()
    ensures Merge([], []) == []
  {
  }

  method MergeConfigEntry<L(==)>(env: Env, cfg: Config<L>, id: string, entry: Entry, layout: L, preserved: seq<Entry>)
    returns (r: Result<Config<L>>, mergedExisting: bool, keyIds: seq<string>)
    ensures r == MergeEntry(env, cfg, id, entry, layout, preserved)
    ensures r.Ok? ==> (mergedExisting <==> id in cfg.rounds || preserved != [])
    ensures r.Ok? ==> ResolveEntry(env, id, entry).Ok? && keyIds == Ids(ResolveEntry(env, id, entry).value.signatures)
  {
    hide Merge, Gather, ResolvePreserved, ResolveEntry, Compatible;
    if cfg.layout != layout {
      return Err, false, [];
    }
    var resolved := ResolveEntry(env, id, entry);
    if resolved.Err? {
      return Err, false, [];
    }
    var incoming := resolved.value;
    keyIds := CollectKeyIds(incoming.signatures);
    var kept := ResolvePreservedEntries(env, id, incoming.authVersion, preserved);
    if kept.Err? {
      return Err, false, [];
    }
    KeptCount(env, id, incoming.authVersion, preserved);
    var targets := Targets(cfg.rounds, id, kept.value);
    var signatures := MergeTargets(targets, incoming);
    if signatures.Err? {
      return Err, false, [];
    }
    MergeAppend([], Gather(targets), incoming.signatures);
    var all := MergeSignatures(signatures.value, incoming.signatures);
    var rounds := cfg.rounds[id := incoming.(signatures := all)];
    if exists k :: k in rounds && !env.entryVerifies(k, rounds[k]) {
      return Err, false, [];
    }
    return Ok(cfg.(rounds := rounds)), |targets| > 0, keyIds;
  }

  method CollectKeyIds(signatures: seq<Signature>) returns (keyIds: seq<string>)
    ensures keyIds == Ids(signatures)
  {
    keyIds := [];
    for i := 0 to |signatures|
      invariant |keyIds| == i && forall j :: 0 <= j < i ==> keyIds[j] == signatures[j].keyId
    {
      keyIds := keyIds + [signatures[i].keyId];
    }
  }

  lemma {:induction false} KeptCount(env: Env, id: string, version: nat, es: seq<Entry>)
    ensures var r := ResolvePreserved(env, id, version, es);
      r.Ok? ==> |r.value| == |es|
  {
    if es != [] {
      KeptCount(env, id, version, es[..|es| - 1]);
    }
  }

  // ----- what a successful merge leaves

  /** Every other round and the layout are untouched; the merged round has one signature per key id, in
      order of first appearance, each with the last value in the order base, preserved, incoming; and
      every round of the result verifies. */
  lemma MergeOutcome<L>(env: Env, cfg: Config<L>, id: string, entry: Entry, layout: L, preserved: seq<Entry>)
    requires MergeEntry(env, cfg, id, entry, layout, preserved).Ok?
    ensures ResolveEntry(env, id, entry).Ok?
    ensures ResolvePreserved(env, id, entry.authVersion, preserved).Ok?
    ensures var out := MergeEntry(env, cfg, id, entry, layout, preserved).value;
      var incoming := ResolveEntry(env, id, entry).value;
      var kept := ResolvePreserved(env, id, entry.authVersion, preserved).value;
      var all := Gather(Targets(cfg.rounds, id, kept)) + incoming.signatures;
      && out.layout == cfg.layout == layout
      && out.rounds.Keys == cfg.rounds.Keys + {id}
      && (forall k :: k in cfg.rounds && k != id ==> out.rounds[k] == cfg.rounds[k])
      && out.rounds[id].eaPk == entry.eaPk && out.rounds[id].authVersion == entry.authVersion
      && UniqueIds(out.rounds[id].signatures)
      && Ids(out.rounds[id].signatures) == FirstSeen(Ids(all))
      && (forall key :: LastOf(out.rounds[id].signatures, key) == LastOf(all, key))
      && (forall k :: k in out.rounds ==> env.entryVerifies(k, out.rounds[k]))
  {
    hide Merge, Gather, ResolvePreserved, LastOf, FirstSeen;
    var incoming := ResolveEntry(env, id, entry).value;
    var kept := ResolvePreserved(env, id, entry.authVersion, preserved).value;
    MergeNormal(Gather(Targets(cfg.rounds, id, kept)) + incoming.signatures);
  }

  // ----- where merged signatures come from

  lemma {:induction false} MergeFrom(a: seq<Signature>, x: Signature)
    requires x in Merge([], a)
    ensures x in a
  {
    hide Merge;
    MergeNormal(a);
    var s := Merge([], a);
    var i :| 0 <= i < |s| && s[i] == x;
    LastInUnique(s, i);
    assert LastOf(a, x.keyId) == Some(x);
  }

  lemma {:induction false} GatherFrom(es: seq<Entry>, x: Signature) returns (i: nat)
    requires x in Gather(es)
    ensures i < |es| && es[i].authVersion != AUTH_VERSION_V1 && x in es[i].signatures
  {
    var n := |es| - 1;
    if es[n].authVersion != AUTH_VERSION_V1 && x in es[n].signatures {
      i := n;
    } else {
      i := GatherFrom(es[..n], x);
    }
  }

  /** x is a signature of y, possibly renamed. */
  ghost predicate ComesFrom(env: Env, payload: string, y: Entry, x: Signature) {
    exists i :: 0 <= i < |y.signatures| && RenamedFrom(env, payload, y.signatures[i], x)
  }

  lemma ResolvedSignature(env: Env, id: string, y: Entry, e: Entry, x: Signature)
    requires ResolvedFrom(env, id, y, e) && x in e.signatures
    ensures ComesFrom(env, env.payload(id, y.eaPk, y.authVersion).value, y, x)
  {
    hide RenamedFrom;
    var i :| 0 <= i < |e.signatures| && e.signatures[i] == x;
  }

  /** After a successful merge, every signature of the merged round is one of the stored entry's own, or
      one of the incoming entry's or of a preserved entry's of the same version, under the name of a
      trusted key that verifies it over the entry's text whenever some trusted key does. */
  lemma MergedSignaturesNamed<L>(env: Env, cfg: Config<L>, id: string, entry: Entry, layout: L, preserved: seq<Entry>,
                                 x: Signature)
    requires MergeEntry(env, cfg, id, entry, layout, preserved).Ok?
    requires x in MergeEntry(env, cfg, id, entry, layout, preserved).value.rounds[id].signatures
    ensures env.payload(id, entry.eaPk, entry.authVersion).Some?
    ensures var payload := env.payload(id, entry.eaPk, entry.authVersion).value;
      || (id in cfg.rounds && x in cfg.rounds[id].signatures)
      || ComesFrom(env, payload, entry, x)
      || exists i :: 0 <= i < |preserved| && preserved[i].authVersion == entry.authVersion
           && preserved[i].eaPk == entry.eaPk && ComesFrom(env, payload, preserved[i], x)
  {
    hide Merge, Gather, ResolvePreserved, ResolveEntry, ResolvedFrom, ComesFrom;
    ResolveEntryExact(env, id, entry);
    var incoming := ResolveEntry(env, id, entry).value;
    ResolvedText(env, id, entry, incoming);
    var kept := ResolvePreserved(env, id, incoming.authVersion, preserved).value;
    var targets := Targets(cfg.rounds, id, kept);
    MergeFrom(Gather(targets) + incoming.signatures, x);
    if x in incoming.signatures {
      ResolvedSignature(env, id, entry, incoming, x);
    } else {
      var i := GatherFrom(targets, x);
      assert Compatible(targets[i], incoming);
      if !(id in cfg.rounds && i == 0) {
        var j := if id in cfg.rounds then i - 1 else i;
        assert targets[i] == kept[j];
        ResolvePreservedExact(env, id, incoming.authVersion, preserved);
        KeptSignature(env, id, entry, preserved, kept, j, x);
      }
    }
  }

  lemma ResolvedText(env: Env, id: string, y: Entry, x: Entry)
    requires ResolvedFrom(env, id, y, x)
    ensures x.eaPk == y.eaPk && x.authVersion == y.authVersion
    ensures env.payload(id, y.eaPk, y.authVersion).Some?
  {
  }

  lemma KeptSignature(env: Env, id: string, entry: Entry, preserved: seq<Entry>, kept: seq<Entry>, j: nat, x: Signature)
    requires j < |preserved| == |kept| && x in kept[j].signatures && kept[j].eaPk == entry.eaPk
    requires kept[j].authVersion == entry.authVersion
    requires if preserved[j].authVersion == entry.authVersion then ResolvedFrom(env, id, preserved[j], kept[j])
             else kept[j] == preserved[j]
    ensures preserved[j].authVersion == entry.authVersion && preserved[j].eaPk == entry.eaPk
    ensures env.payload(id, entry.eaPk, entry.authVersion).Some?
    ensures ComesFrom(env, env.payload(id, entry.eaPk, entry.authVersion).value, preserved[j], x)
  {
    hide ComesFrom, ResolvedFrom;
    ResolvedText(env, id, preserved[j], kept[j]);
    ResolvedSignature(env, id, preserved[j], kept[j], x);
  }

  // ----- exactly when a merge succeeds

  /** The incoming text with the signatures merged in the order base, preserved, incoming, the legacy ones
      left out. */
  ghost function MergedFrom(base: seq<Entry>, kept: seq<Entry>, entry: Entry, incoming: Entry): Entry {
    Entry(entry.eaPk, entry.authVersion, Merge([], Gather(base) + Gather(kept) + incoming.signatures))
  }

  ghost predicate AllVerify(env: Env, rounds: map<string, Entry>) {
    forall k :: k in rounds ==> env.entryVerifies(k, rounds[k])
  }

  /** The texts of the incoming entry and of the preserved ones of its version can be formed, and the
      stored and preserved entries have its key and a version that is its own or the legacy one. */
  ghost predicate MayMerge(env: Env, id: string, base: seq<Entry>, entry: Entry, preserved: seq<Entry>) {
    && env.payload(id, entry.eaPk, entry.authVersion).Some?
    && (forall i :: 0 <= i < |preserved| && preserved[i].authVersion == entry.authVersion ==>
      env.payload(id, preserved[i].eaPk, entry.authVersion).Some?)
    && TextsAgree(base + preserved, entry)
  }

  ghost predicate TextsAgree(es: seq<Entry>, entry: Entry) {
    forall i :: 0 <= i < |es| ==>
      es[i].eaPk == entry.eaPk && (es[i].authVersion == 1 || es[i].authVersion == entry.authVersion)
  }

  /** A merge succeeds if and only if the file advertises the signed layout, the entries may be merged, and
      every round of the result verifies; the result replaces the one round by the merged entry. */
  lemma MergeSucceedsExactly<L>(env: Env, cfg: Config<L>, id: string, entry: Entry, layout: L, preserved: seq<Entry>)
    ensures var base := if id in cfg.rounds then [cfg.rounds[id]] else [];
      var r := MergeEntry(env, cfg, id, entry, layout, preserved);
      && (!MayMerge(env, id, base, entry, preserved) || cfg.layout != layout ==> r.Err?)
      && (MayMerge(env, id, base, entry, preserved) && cfg.layout == layout ==>
        && ResolveEntry(env, id, entry).Ok? && ResolvePreserved(env, id, entry.authVersion, preserved).Ok?
        && var kept := ResolvePreserved(env, id, entry.authVersion, preserved).value;
        && var out := cfg.rounds[id := MergedFrom(base, kept, entry, ResolveEntry(env, id, entry).value)];
        r == if AllVerify(env, out) then Ok(cfg.(rounds := out)) else Err)
  {
    hide Merge, Gather, ResolvePreserved, ResolveEntry, ResolvedFrom, TextsAgree;
    ResolveEntryExact(env, id, entry);
    ResolvePreservedExact(env, id, entry.authVersion, preserved);
    if ResolveEntry(env, id, entry).Ok? {
      ResolvedText(env, id, entry, ResolveEntry(env, id, entry).value);
    }
    if ResolveEntry(env, id, entry).Ok? && ResolvePreserved(env, id, entry.authVersion, preserved).Ok? {
      var base := if id in cfg.rounds then [cfg.rounds[id]] else [];
      var incoming := ResolveEntry(env, id, entry).value;
      var kept := ResolvePreserved(env, id, entry.authVersion, preserved).value;
      GatherAppend(base, kept);
      SameTexts(env, id, base, preserved, kept, entry);
      var targets := Targets(cfg.rounds, id, kept);
      assert targets == base + kept;
      if !TextsAgree(base + preserved, entry) {
        var i :| 0 <= i < |targets| && !Compatible(targets[i], entry);
        assert !Compatible(targets[i], incoming);
      }
    }
  }

  /** Resolving changes neither keys nor versions. */
  lemma SameTexts(env: Env, id: string, base: seq<Entry>, preserved: seq<Entry>, kept: seq<Entry>, entry: Entry)
    requires |kept| == |preserved| && forall i :: 0 <= i < |preserved| ==>
      if preserved[i].authVersion == entry.authVersion then ResolvedFrom(env, id, preserved[i], kept[i])
      else kept[i] == preserved[i]
    ensures TextsAgree(base + preserved, entry) <==>
      forall i :: 0 <= i < |base + kept| ==> Compatible((base + kept)[i], entry)
    ensures forall x :: Compatible(x, entry) <==>
      x.eaPk == entry.eaPk && (x.authVersion == 1 || x.authVersion == entry.authVersion)
  {
    hide ResolvedFrom;
    forall i | 0 <= i < |base + kept|
      ensures (base + kept)[i].eaPk == (base + preserved)[i].eaPk
      ensures (base + kept)[i].authVersion == (base + preserved)[i].authVersion
    {
      if i >= |base| && preserved[i - |base|].authVersion == entry.authVersion {
        ResolvedText(env, id, preserved[i - |base|], kept[i - |base|]);
      }
    }
  }

  // ----- when the signatures of the incoming version survive

  /** The signatures of every entry of the given version, in order. */
  function SameVersion(es: seq<Entry>, version: nat): seq<Signature> {
    if es == [] then []
    else
      var n := |es| - 1;
      SameVersion(es[..n], version) + if es[n].authVersion == version then es[n].signatures else []
  }

  /** What a merge promises: every key id of every target of the incoming version is still there, with
      the last value in the order base, preserved, incoming. */
  ghost predicate SameVersionKept(targets: seq<Entry>, incoming: Entry, merged: Entry) {
    var older := SameVersion(targets, incoming.authVersion);
    forall key :: key in Ids(older) ==>
      LastOf(merged.signatures, key) == LastOf(older + incoming.signatures, key)
  }

  lemma {:induction false} GatherSameVersion(targets: seq<Entry>, incoming: Entry)
    requires forall i :: 0 <= i < |targets| ==> Compatible(targets[i], incoming)
    ensures incoming.authVersion != AUTH_VERSION_V1 ==> Gather(targets) == SameVersion(targets, incoming.authVersion)
    ensures incoming.authVersion == AUTH_VERSION_V1 ==> Gather(targets) == []
  {
    if targets != [] {
      GatherSameVersion(targets[..|targets| - 1], incoming);
    }
  }

  /** The promise holds of merged targets if and only if the incoming version is not the legacy one, or
      the incoming entry lists every older key id of its version itself. */
  lemma KeptExact(targets: seq<Entry>, incoming: Entry, merged: Entry)
    requires forall i :: 0 <= i < |targets| ==> Compatible(targets[i], incoming)
    requires merged.signatures == Merge([], Gather(targets) + incoming.signatures)
    ensures SameVersionKept(targets, incoming, merged) <==>
      (incoming.authVersion == AUTH_VERSION_V1 ==>
        forall key :: key in Ids(SameVersion(targets, incoming.authVersion)) ==> key in Ids(incoming.signatures))
  {
    hide Merge, Gather, LastOf, SameVersion, FirstSeen;
    var older := SameVersion(targets, incoming.authVersion);
    GatherSameVersion(targets, incoming);
    MergeNormal(Gather(targets) + incoming.signatures);
    if incoming.authVersion == AUTH_VERSION_V1 {
      assert [] + incoming.signatures == incoming.signatures;
      forall key | key in Ids(older)
        ensures LastOf(merged.signatures, key) == LastOf(older + incoming.signatures, key)
          <==> key in Ids(incoming.signatures)
      {
        LastOfAppend(older, incoming.signatures, key);
        NotListed(older, key);
        NotListed(incoming.signatures, key);
      }
    }
  }

  /** For every successful merge, the same-version key ids of base and preserved entries survive with
      their last value if and only if the incoming version is not 1 or the incoming entry lists them. */
  lemma MergeKeepsVersion<L>(env: Env, cfg: Config<L>, id: string, entry: Entry, layout: L, preserved: seq<Entry>)
    requires MergeEntry(env, cfg, id, entry, layout, preserved).Ok?
    ensures ResolveEntry(env, id, entry).Ok?
    ensures ResolvePreserved(env, id, entry.authVersion, preserved).Ok?
    ensures var out := MergeEntry(env, cfg, id, entry, layout, preserved).value;
      var incoming := ResolveEntry(env, id, entry).value;
      var targets := Targets(cfg.rounds, id, ResolvePreserved(env, id, entry.authVersion, preserved).value);
      SameVersionKept(targets, incoming, out.rounds[id]) <==>
        (entry.authVersion != AUTH_VERSION_V1
         || forall key :: key in Ids(SameVersion(targets, entry.authVersion)) ==> key in Ids(incoming.signatures))
  {
    hide Merge, Gather, SameVersion, SameVersionKept, ResolvePreserved;
    var out := MergeEntry(env, cfg, id, entry, layout, preserved).value;
    var incoming := ResolveEntry(env, id, entry).value;
    var targets := Targets(cfg.rounds, id, ResolvePreserved(env, id, entry.authVersion, preserved).value);
    KeptExact(targets, incoming, out.rounds[id]);
  }

  /** A losing instance: a base entry of version 1 signed by k1 and an incoming one of version 1 signed
      by k2. The merge succeeds and k1 is gone. */
  lemma LegacyMergeDrops() returns (env: Env, cfg: Config<nat>, entry: Entry)
    ensures var r := MergeEntry(env, cfg, "r", entry, 0, []);
      && "r" in cfg.rounds && cfg.rounds["r"].authVersion == entry.authVersion == AUTH_VERSION_V1
      && "k1" in Ids(cfg.rounds["r"].signatures)
      && r.Ok? && "k1" !in Ids(r.value.rounds["r"].signatures)
  {
    var k1, k2 := Signature("k1", "none", ""), Signature("k2", "none", "");
    var base := Entry("pk", AUTH_VERSION_V1, [k1]);
    env := Env([], (_, _, _) => Some(""), (_, _, _) => false, (_, _) => true);
    cfg := Config(0, map["r" := base]);
    entry := Entry("pk", AUTH_VERSION_V1, [k2]);
    hide MergeEntry, Merge, Gather;
    MergeSucceedsExactly(env, cfg, "r", entry, 0, []);
    NothingToResolve(env, "r", entry, k2);
    GatherLegacy([base]);
    GatherLegacy([]);
    assert [base] + [] == [base];
    OneSignature(k2);
    assert Ids([k1])[0] == "k1";
  }

  lemma NothingToResolve(env: Env, id: string, entry: Entry, x: Signature)
    requires entry.signatures == [x] && x.alg != ED25519 && env.payload(id, entry.eaPk, entry.authVersion).Some?
    ensures ResolveEntry(env, id, entry) == Ok(entry) && ResolvePreserved(env, id, entry.authVersion, []) == Ok([])
  {
    var payload := env.payload(id, entry.eaPk, entry.authVersion).value;
    assert ResolveAll(env, [x], payload) == [x];
  }

  lemma OneSignature(x: Signature)
    ensures Merge([], [] + [] + [x]) == [x] && Ids([x]) == [x.keyId]
  {
    assert [] + [] + [x] == [x];
    SelfMerge([x]);
  }

  lemma GatherLast(es: seq<Entry>)
    requires es != []
    ensures var e := es[|es| - 1];
      Gather(es) == Gather(es[..|es| - 1]) + if e.authVersion == AUTH_VERSION_V1 then [] else e.signatures
  {
  }

  lemma {:induction false} GatherAppend(a: seq<Entry>, b: seq<Entry>)
    ensures Gather(a + b) == Gather(a) + Gather(b)
  {
    if b == [] {
      assert a + b == a;
    } else {
      var n := |b| - 1;
      GatherAppend(a, b[..n]);
      assert (a + b)[..|a| + n] == a + b[..n];
      assert (a + b)[|a| + n] == b[n];
      hide Gather;
      GatherLast(a + b);
      GatherLast(b);
      Reassociate(Gather(a), Gather(a), Gather(b[..n]),
        if b[n].authVersion == AUTH_VERSION_V1 then [] else b[n].signatures);
    }
  }

  /** Merging the same entry again, over the result and with the same preserved entries, gives the
      same configuration. */
  lemma MergeAgain<L>(env: Env, cfg: Config<L>, id: string, entry: Entry, layout: L, preserved: seq<Entry>)
    requires MergeEntry(env, cfg, id, entry, layout, preserved).Ok?
    ensures var out := MergeEntry(env, cfg, id, entry, layout, preserved).value;
      MergeEntry(env, out, id, entry, layout, preserved) == Ok(out)
  {
    hide Merge, Gather, ResolvePreserved;
    var incoming := ResolveEntry(env, id, entry).value;
    var kept := ResolvePreserved(env, id, incoming.authVersion, preserved).value;
    var before := Targets(cfg.rounds, id, kept);
    var out := MergeEntry(env, cfg, id, entry, layout, preserved).value;
    var after := Targets(out.rounds, id, kept);
    assert after == [out.rounds[id]] + kept;
    forall i | 0 <= i < |after| ensures Compatible(after[i], incoming) {
      if i > 0 {
        assert after[i] == kept[i - 1] == before[|before| - |kept| + i - 1];
      }
    }
    SameSignatures(before, out.rounds[id], incoming, kept);
    assert out.rounds[id := out.rounds[id]] == out.rounds;
  }

  lemma SameSignatures(before: seq<Entry>, merged: Entry, incoming: Entry, kept: seq<Entry>)
    requires |kept| <= |before| && before[|before| - |kept|..] == kept
    requires merged == incoming.(signatures := Merge([], Gather(before) + incoming.signatures))
    requires forall i :: 0 <= i < |before| ==> Compatible(before[i], incoming)
    ensures Merge([], Gather([merged] + kept) + incoming.signatures) == merged.signatures
  {
    hide Merge, Gather;
    var base := before[..|before| - |kept|];
    assert before == base + kept;
    if incoming.authVersion == AUTH_VERSION_V1 {
      GatherLegacy([merged] + kept);
      GatherLegacy(before);
    } else {
      GatherAppend(base, kept);
      GatherAppend([merged], kept);
      GatherOne(merged);
      Reassociate(Gather(base), merged.signatures, Gather(kept), incoming.signatures);
      MergeTailAgain(Gather(base), Gather(kept) + incoming.signatures);
    }
  }

  lemma Reassociate<T>(a: seq<T>, b: seq<T>, c: seq<T>, d: seq<T>)
    ensures (a + c) + d == a + (c + d) && (b + c) + d == b + (c + d)
  {
  }

  lemma GatherOne(e: Entry)
    ensures Gather([e]) == if e.authVersion == AUTH_VERSION_V1 then [] else e.signatures
  {
    assert [e][..0] == [];
    assert Gather([]) == [];
  }

  lemma {:induction false} GatherLegacy(es: seq<Entry>)
    requires forall i :: 0 <= i < |es| ==> es[i].authVersion == AUTH_VERSION_V1
    ensures Gather(es) == []
  {
    if es != [] {
      GatherLegacy(es[..|es| - 1]);
    }
  }

  // ----- acknowledgments

  predicate OccursAt(text: string, marker: string, i: nat) {
    i + |marker| <= |text| && text[i..i + |marker|] == marker
  }

  predicate Contains(text: string, marker: string) {
    exists i :: 0 <= i <= |text| && OccursAt(text, marker, i)
  }

  /** How an acknowledgment is written: the marker that identifies it and the statement. */
  datatype AckFormat<!A> = AckFormat(marker: A -> string, statement: A -> string)

  function Appended<A>(f: AckFormat<A>, text: string, a: A): string {
    if Contains(text, f.marker(a)) then text
    else text + ("\n\n" + f.marker(a) + "\n" + f.statement(a) + "\n")
  }

  function AppendAll<A>(f: AckFormat<A>, text: string, acks: seq<A>): string {
    if acks == [] then text else Appended(f, AppendAll(f, text, acks[..|acks| - 1]), acks[|acks| - 1])
  }

  method AppendAcknowledgments<A>(f: AckFormat<A>, existing: string, acks: seq<A>) returns (result: string)
    ensures result == AppendAll(f, existing, acks)
  {
    result := existing;
    for i := 0 to |acks|
      invariant result == AppendAll(f, existing, acks[..i])
    {
      assert acks[..i + 1][..i] == acks[..i];
      if Contains(result, f.marker(acks[i])) {
        continue;
      }
      result := result + ("\n\n" + f.marker(acks[i]) + "\n" + f.statement(acks[i]) + "\n");
    }
    assert acks[..|acks|] == acks;
  }

  lemma ContainsLonger(text: string, more: string, marker: string)
    requires Contains(text, marker)
    ensures Contains(text + more, marker)
  {
    var i :| 0 <= i <= |text| && OccursAt(text, marker, i);
    assert OccursAt(text + more, marker, i);
  }

  lemma AppendedMarks<A>(f: AckFormat<A>, text: string, a: A)
    ensures Contains(Appended(f, text, a), f.marker(a))
  {
    var m := f.marker(a);
    if !Contains(text, m) {
      var i := |text| + 2;
      assert OccursAt(Appended(f, text, a), m, i);
    }
  }

  ghost predicate Extends(longer: string, text: string) {
    |text| <= |longer| && longer[..|text|] == text
  }

  /** An acknowledgment whose marker was not there yet is written out, marker and statement. */
  lemma {:induction false} AppendWrites<A>(f: AckFormat<A>, text: string, acks: seq<A>, i: nat)
    requires i < |acks| && !Contains(AppendAll(f, text, acks[..i]), f.marker(acks[i]))
    ensures Contains(AppendAll(f, text, acks), f.marker(acks[i]) + "\n" + f.statement(acks[i]))
  {
    var n := |acks| - 1;
    var before, after := AppendAll(f, text, acks[..n]), AppendAll(f, text, acks);
    var m := f.marker(acks[i]) + "\n" + f.statement(acks[i]);
    if i == n {
      var at := |before| + 2;
      assert after[at..at + |m|] == m;
      assert OccursAt(after, m, at);
    } else {
      assert acks[..n][..i] == acks[..i];
      AppendWrites(f, text, acks[..n], i);
      hide Contains;
      assert after == before + after[|before|..];
      ContainsLonger(before, after[|before|..], m);
    }
  }

  /** Nothing is removed, every acknowledgment is marked, and a second pass adds nothing. */
  lemma {:induction false} AppendOnce<A>(f: AckFormat<A>, text: string, acks: seq<A>)
    ensures Extends(AppendAll(f, text, acks), text)
    ensures forall i :: 0 <= i < |acks| ==> Contains(AppendAll(f, text, acks), f.marker(acks[i]))
    ensures AppendAll(f, AppendAll(f, text, acks), acks) == AppendAll(f, text, acks)
  {
    hide Contains;
    AppendKeeps(f, text, acks);
    NothingNew(f, AppendAll(f, text, acks), acks);
  }

  lemma {:induction false} AppendKeeps<A>(f: AckFormat<A>, text: string, acks: seq<A>)
    ensures Extends(AppendAll(f, text, acks), text)
    ensures forall i :: 0 <= i < |acks| ==> Contains(AppendAll(f, text, acks), f.marker(acks[i]))
  {
    hide Contains;
    if acks != [] {
      var n := |acks| - 1;
      var before, after := AppendAll(f, text, acks[..n]), AppendAll(f, text, acks);
      AppendKeeps(f, text, acks[..n]);
      AppendedMarks(f, before, acks[n]);
      assert after == before + after[|before|..];
      forall i | 0 <= i < n ensures Contains(after, f.marker(acks[i])) {
        assert acks[..n][i] == acks[i];
        ContainsLonger(before, after[|before|..], f.marker(acks[i]));
      }
    }
  }

  lemma {:induction false} NothingNew<A>(f: AckFormat<A>, text: string, acks: seq<A>)
    requires forall i :: 0 <= i < |acks| ==> Contains(text, f.marker(acks[i]))
    ensures AppendAll(f, text, acks) == text
  {
    hide Contains;
    if acks != [] {
      NothingNew(f, text, acks[..|acks| - 1]);
    }
  }
}
