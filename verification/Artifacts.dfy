/** Removing duplicate delivery artifacts by file id and by path. */
module Artifacts {
  import opened Text

  /** A field of a decoded JSON object; only the truth value of a non-string matters. */
  datatype Field = Str(text: string) | NotStr(truthy: bool)

  datatype Artifact = Artifact(fileId: Field, path: Field, filename: string, contentType: string, kind: string)

  /** The file system's path resolution and the case folding of names. */
  datatype Env = Env(resolve: string -> string, lower: string -> string)

  const WEAK := {"file.bin", "file", "image.png", "download.bin", "bin"}

  predicate Truthy(f: Field) {
    match f
    case Str(text) => text != ""
    case NotStr(truthy) => truthy
  }

  function AsStr(f: Field): Option<string> {
    if f.Str? && Strip(f.text) != "" then Some(Strip(f.text)) else None
  }

  /** Served URLs are not paths; an empty resolution is used nowhere, like none at all. */
  function NormalizePath(env: Env, path: Option<string>): Option<string> {
    if path.None? || Strip(path.value) == "" || "/api/" <= Strip(path.value) then None
    else if env.resolve(Strip(path.value)) == "" then None
    else Some(env.resolve(Strip(path.value)))
  }

  function PathOf(env: Env, f: Field): Option<string> {
    NormalizePath(env, AsStr(f))
  }

  predicate Image(a: Artifact) {
    a.kind == "image" || "image/" <= a.contentType
  }

  function MergedName(env: Env, base: string, extra: string): string {
    if extra != "" && (env.lower(base) in WEAK || base == "") && (env.lower(extra) !in WEAK || base == "") then extra
    else base
  }

  function Merge(env: Env, base: Artifact, extra: Artifact): Artifact {
    Artifact(
      if !Truthy(base.fileId) && Truthy(extra.fileId) then extra.fileId else base.fileId,
      if !Truthy(base.path) && Truthy(extra.path) then extra.path else base.path,
      MergedName(env, base.filename, extra.filename),
      if base.contentType == "" then extra.contentType else base.contentType,
      if Image(extra) then "image" else if base.kind == "" then extra.kind else base.kind)
  }

  /** The input with its path normalised, as it is stored. */
  function Canonical(env: Env, a: Artifact): Artifact {
    var path := PathOf(env, a.path);
    if path.Some? then a.(path := Str(path.value)) else a
  }

  predicate Usable(env: Env, a: Artifact) {
    AsStr(a.fileId).Some? || PathOf(env, a.path).Some?
  }

  // ---- One input at a time ----

  datatype State = State(out: seq<Artifact>, byId: map<string, nat>, byPath: map<string, nat>)

  /** The entry an input is merged into: by id first, then by path. */
  function Match(env: Env, s: State, a: Artifact): Option<nat> {
    var id, path := AsStr(a.fileId), PathOf(env, a.path);
    if id.Some? && id.value in s.byId then Some(s.byId[id.value])
    else if path.Some? && path.value in s.byPath then Some(s.byPath[path.value])
    else None
  }

  /** Both indices learn the id and the path of entry `k`. */
  function Indexed(s: State, id: Option<string>, path: Option<string>, k: nat): State {
    State(s.out,
          if id.Some? then s.byId[id.value := k] else s.byId,
          if path.Some? then s.byPath[path.value := k] else s.byPath)
  }

  function Step(env: Env, s: State, a: Artifact): State
    requires Match(env, s, a).Some? ==> Match(env, s, a).value < |s.out|
  {
    var m := Match(env, s, a);
    if !Usable(env, a) then s
    else if m.Some? then
      var merged := Merge(env, s.out[m.value], Canonical(env, a));
      Indexed(s.(out := s.out[m.value := merged]), AsStr(merged.fileId), PathOf(env, merged.path), m.value)
    else
      Indexed(s.(out := s.out + [Canonical(env, a)]), AsStr(a.fileId), PathOf(env, a.path), |s.out|)
  }

  /** The entry is stored under path `p`. */
  predicate Holds(env: Env, e: Artifact, p: string) {
    p != "" && (e.path == Str(p) || PathOf(env, e.path) == Some(p))
  }

  predicate IdSound(s: State) {
    && (forall id <- s.byId :: s.byId[id] < |s.out| && AsStr(s.out[s.byId[id]].fileId) == Some(id))
    && (forall k :: 0 <= k < |s.out| ==>
          var id := AsStr(s.out[k].fileId); id.Some? ==> id.value in s.byId && s.byId[id.value] == k)
  }

  predicate PathSound(env: Env, s: State) {
    forall p <- s.byPath :: s.byPath[p] < |s.out| && Holds(env, s.out[s.byPath[p]], p)
  }

  /** The id index is exact; the path index points at entries that hold the path. */
  predicate Sound(env: Env, s: State) {
    IdSound(s) && PathSound(env, s)
  }

  lemma MergeKeeps(env: Env, base: Artifact, extra: Artifact)
    ensures AsStr(base.fileId).Some? ==> Merge(env, base, extra).fileId == base.fileId
    ensures forall p :: Holds(env, base, p) ==> Merge(env, base, extra).path == base.path
  {
    assert Strip("") == "";
  }

  /** Giving entry `k` its own id, or a new one to an entry without, keeps the index exact. */
  lemma IdUpdate(s: State, k: nat, e: Artifact, byPath: map<string, nat>)
    requires IdSound(s) && k <= |s.out|
    requires var id := AsStr(e.fileId);
             if k < |s.out| && AsStr(s.out[k].fileId).Some? then id == AsStr(s.out[k].fileId)
             else id.Some? ==> id.value !in s.byId
    ensures var id := AsStr(e.fileId);
            IdSound(State(if k < |s.out| then s.out[k := e] else s.out + [e],
                          if id.Some? then s.byId[id.value := k] else s.byId, byPath))
  {
    hide AsStr;
  }

  lemma IdSoundStep(env: Env, s: State, a: Artifact)
    requires Sound(env, s)
    ensures IdSound(Step(env, s, a))
  {
    hide NormalizePath, MergedName, Holds, AsStr, Merge, IdSound;
    var m := Match(env, s, a);
    if Usable(env, a) {
      MatchById(env, s, a);
      if m.Some? {
        var merged := Merge(env, s.out[m.value], Canonical(env, a));
        MergedId(env, s.out[m.value], Canonical(env, a));
        IdUpdate(s, m.value, merged, Step(env, s, a).byPath);
      } else {
        IdUpdate(s, |s.out|, Canonical(env, a), Step(env, s, a).byPath);
      }
    }
  }

  lemma MatchById(env: Env, s: State, a: Artifact)
    requires Sound(env, s)
    ensures var m := Match(env, s, a);
            && (m.Some? ==> m.value < |s.out|)
            && (m.None? && AsStr(a.fileId).Some? ==> AsStr(a.fileId).value !in s.byId)
            && (m.Some? && AsStr(s.out[m.value].fileId).None? && AsStr(a.fileId).Some? ==> AsStr(a.fileId).value !in s.byId)
  {
    hide NormalizePath, Holds, AsStr;
  }

  lemma MergedId(env: Env, base: Artifact, extra: Artifact)
    ensures AsStr(base.fileId).Some? ==> AsStr(Merge(env, base, extra).fileId) == AsStr(base.fileId)
    ensures AsStr(base.fileId).None? ==>
      AsStr(Merge(env, base, extra).fileId).None? || AsStr(Merge(env, base, extra).fileId) == AsStr(extra.fileId)
  {
    assert Strip("") == "";
  }

  lemma PathSoundStep(env: Env, s: State, a: Artifact)
    requires Sound(env, s)
    ensures PathSound(env, Step(env, s, a))
  {
    hide NormalizePath, MergedName, AsStr, Merge, Holds;
    var m, s' := Match(env, s, a), Step(env, s, a);
    if m.Some? {
      forall p | p in s.byPath ensures Holds(env, s'.out[s.byPath[p]], p) {
        KeepsPath(env, s.out[s.byPath[p]], Canonical(env, a), p);
      }
      var merged := Merge(env, s.out[m.value], Canonical(env, a));
      OwnPath(env, merged);
    } else {
      CanonicalPath(env, a);
    }
  }

  lemma KeepsPath(env: Env, base: Artifact, extra: Artifact, p: string)
    ensures Holds(env, base, p) ==> Holds(env, Merge(env, base, extra), p)
  {
    MergeKeeps(env, base, extra);
  }

  lemma OwnPath(env: Env, e: Artifact)
    ensures PathOf(env, e.path).Some? ==> Holds(env, e, PathOf(env, e.path).value)
  {
  }

  lemma CanonicalPath(env: Env, a: Artifact)
    ensures PathOf(env, a.path).Some? ==> Holds(env, Canonical(env, a), PathOf(env, a.path).value)
  {
  }

  lemma SoundStep(env: Env, s: State, a: Artifact)
    requires Sound(env, s)
    ensures Sound(env, Step(env, s, a))
  {
    IdSoundStep(env, s, a);
    PathSoundStep(env, s, a);
  }

  function Run(env: Env, arts: seq<Artifact>): (s: State)
    ensures Sound(env, s)
  {
    if arts == [] then State([], map[], map[])
    else
      var s := Run(env, arts[..|arts| - 1]);
      SoundStep(env, s, arts[|arts| - 1]);
      Step(env, s, arts[|arts| - 1])
  }

  method DedupeArtifacts(env: Env, arts: seq<Artifact>) returns (out: seq<Artifact>)
    ensures out == Run(env, arts).out
  {
    hide Merge, NormalizePath, Sound;
    out := [];
    var byId: map<string, nat>, byPath: map<string, nat> := map[], map[];
    for i := 0 to |arts|
      invariant State(out, byId, byPath) == Run(env, arts[..i])
    {
      var art := arts[i];
      assert arts[..i + 1][..i] == arts[..i];
      var fid := AsStr(art.fileId);
      var path := PathOf(env, art.path);
      if path.Some? {
        art := art.(path := Str(path.value));
      }
      if fid.None? && path.None? {
        continue;
      }
      var idx: Option<nat> := None;
      if fid.Some? && fid.value in byId {
        idx := Some(byId[fid.value]);
      } else if path.Some? && path.value in byPath {
        idx := Some(byPath[path.value]);
      }
      if idx.Some? {
        MatchInRange(env, State(out, byId, byPath), arts[i]);
        var merged := Merge(env, out[idx.value], art);
        out := out[idx.value := merged];
        var mf, mp := AsStr(merged.fileId), PathOf(env, merged.path);
        if mf.Some? {
          byId := byId[mf.value := idx.value];
        }
        if mp.Some? {
          byPath := byPath[mp.value := idx.value];
        }
        continue;
      }
      var last: nat := |out|;
      out := out + [art];
      if fid.Some? {
        byId := byId[fid.value := last];
      }
      if path.Some? {
        byPath := byPath[path.value := last];
      }
    }
    assert arts[..|arts|] == arts;
  }

  lemma MatchInRange(env: Env, s: State, a: Artifact)
    requires Sound(env, s)
    ensures Match(env, s, a).Some? ==> Match(env, s, a).value < |s.out|
  {
  }

  // ---- What the output is ----

  /** No file id is delivered twice. */
  lemma IdsDistinct(env: Env, arts: seq<Artifact>)
    ensures var out := Run(env, arts).out;
            forall j, k :: 0 <= j < k < |out| && AsStr(out[j].fileId).Some? ==> AsStr(out[j].fileId) != AsStr(out[k].fileId)
  {
    hide AsStr;
  }

  /** The entry an input ends up in. */
  function Owner(env: Env, s: State, a: Artifact): Option<nat> {
    if !Usable(env, a) then None else if Match(env, s, a).Some? then Match(env, s, a) else Some(|s.out|)
  }

  /** The inputs that end up in entry `k`, in order. */
  function Members(env: Env, arts: seq<Artifact>, k: nat): seq<Artifact> {
    if arts == [] then []
    else
      var init, a := arts[..|arts| - 1], arts[|arts| - 1];
      Members(env, init, k) + (if Owner(env, Run(env, init), a) == Some(k) then [Canonical(env, a)] else [])
  }

  /** The left-to-right merge of a group. */
  function MergedAll(env: Env, group: seq<Artifact>): Artifact
    requires group != []
  {
    if |group| == 1 then group[0] else Merge(env, MergedAll(env, group[..|group| - 1]), group[|group| - 1])
  }

  /** Conservation: every entry is the merge of exactly the inputs that were sent to it, none is empty, and each input goes to one. */
  lemma {:induction false} EntriesAreMergedGroups(env: Env, arts: seq<Artifact>, k: nat)
    ensures k < |Run(env, arts).out| <==> Members(env, arts, k) != []
    ensures k < |Run(env, arts).out| ==> Run(env, arts).out[k] == MergedAll(env, Members(env, arts, k))
  {
    hide Merge, NormalizePath, Sound;
    if arts != [] {
      var init, a := arts[..|arts| - 1], arts[|arts| - 1];
      var s := Run(env, init);
      EntriesAreMergedGroups(env, init, k);
      MatchInRange(env, s, a);
      var before, group := Members(env, init, k), Members(env, arts, k);
      if Owner(env, s, a) == Some(k) {
        assert group == before + [Canonical(env, a)];
        assert group[..|group| - 1] == before;
      } else {
        assert group == before;
      }
    }
  }

  // ---- Every input is delivered, and nothing else ----

  /** The entry carries the input's id or is stored under its path. */
  predicate Shares(env: Env, e: Artifact, a: Artifact) {
    || (AsStr(a.fileId).Some? && AsStr(e.fileId) == AsStr(a.fileId))
    || (PathOf(env, a.path).Some? && Holds(env, e, PathOf(env, a.path).value))
  }

  lemma SharesOnArrival(env: Env, s: State, a: Artifact)
    requires Sound(env, s) && Usable(env, a)
    ensures Owner(env, s, a).value < |Step(env, s, a).out|
    ensures Shares(env, Step(env, s, a).out[Owner(env, s, a).value], a)
  {
    hide NormalizePath, MergedName, AsStr, Merge, Holds;
    var m := Match(env, s, a);
    if m.Some? {
      var base, extra := s.out[m.value], Canonical(env, a);
      MergedId(env, base, extra);
      forall p ensures Holds(env, base, p) ==> Holds(env, Merge(env, base, extra), p) {
        KeepsPath(env, base, extra, p);
      }
    } else {
      CanonicalPath(env, a);
    }
  }

  lemma SharesStays(env: Env, s: State, a: Artifact, k: nat, x: Artifact)
    requires Sound(env, s) && k < |s.out| && Shares(env, s.out[k], x)
    ensures k < |Step(env, s, a).out| && Shares(env, Step(env, s, a).out[k], x)
  {
    hide NormalizePath, MergedName, AsStr, Merge, Holds;
    var m := Match(env, s, a);
    if m == Some(k) {
      MergedId(env, s.out[k], Canonical(env, a));
      forall p ensures Holds(env, s.out[k], p) ==> Holds(env, Merge(env, s.out[k], Canonical(env, a)), p) {
        KeepsPath(env, s.out[k], Canonical(env, a), p);
      }
    }
  }

  /** Every input with an id or a path still shares one of them with the entry it went into. */
  lemma {:induction false} EveryInputRepresented(env: Env, arts: seq<Artifact>, n: nat)
    requires n < |arts| && Usable(env, arts[n])
    ensures var k := Owner(env, Run(env, arts[..n]), arts[n]).value;
            k < |Run(env, arts).out| && Shares(env, Run(env, arts).out[k], arts[n])
  {
    hide Shares, Sound, Match, Step, Usable;
    var init, a := arts[..|arts| - 1], arts[|arts| - 1];
    if n == |arts| - 1 {
      SharesOnArrival(env, Run(env, init), a);
    } else {
      assert init[..n] == arts[..n] && init[n] == arts[n];
      EveryInputRepresented(env, init, n);
      var k := Owner(env, Run(env, arts[..n]), arts[n]);
      SharesStays(env, Run(env, init), a, k.value, arts[n]);
    }
  }

  lemma {:induction false} GroupFields(env: Env, group: seq<Artifact>)
    requires group != []
    ensures exists m <- group :: m.fileId == MergedAll(env, group).fileId
    ensures exists m <- group :: m.path == MergedAll(env, group).path
  {
    hide MergedName;
    if |group| == 1 {
      assert group[0] in group;
    } else {
      GroupFields(env, group[..|group| - 1]);
      assert group[|group| - 1] in group;
    }
  }

  lemma {:induction false} MembersAreInputs(env: Env, arts: seq<Artifact>, k: nat, m: Artifact)
    requires m in Members(env, arts, k)
    ensures exists a <- arts :: m == Canonical(env, a)
  {
    hide Owner, Canonical;
    var init := arts[..|arts| - 1];
    if m in Members(env, init, k) {
      MembersAreInputs(env, init, k, m);
    } else {
      assert arts[|arts| - 1] in arts;
    }
  }

  /** No id and no path is invented: each comes from an input. */
  lemma {:induction false} NothingInvented(env: Env, arts: seq<Artifact>, k: nat)
    requires k < |Run(env, arts).out|
    ensures exists a <- arts :: Run(env, arts).out[k].fileId == a.fileId
    ensures exists a <- arts :: Run(env, arts).out[k].path == Canonical(env, a).path
  {
    hide PathOf;
    var group := Members(env, arts, k);
    EntriesAreMergedGroups(env, arts, k);
    GroupFields(env, group);
    var m :| m in group && m.fileId == MergedAll(env, group).fileId;
    MembersAreInputs(env, arts, k, m);
    m :| m in group && m.path == MergedAll(env, group).path;
    MembersAreInputs(env, arts, k, m);
  }

  /** A merged entry counts as an image exactly if its first input was called one or a later one is one. */
  lemma {:induction false} ImageExactly(env: Env, group: seq<Artifact>)
    requires group != []
    ensures MergedAll(env, group).kind == "image" <==>
      group[0].kind == "image" || exists i :: 0 < i < |group| && Image(group[i])
  {
    hide MergedName;
    if |group| > 1 {
      var init := group[..|group| - 1];
      ImageExactly(env, init);
      assert forall i :: 0 < i < |init| ==> init[i] == group[i];
    }
  }

  // ---- Which name, type and kind survive ----

  function FirstNonEmpty(texts: seq<string>): string {
    if texts == [] then "" else if texts[0] != "" then texts[0] else FirstNonEmpty(texts[1..])
  }

  /** The first name that is neither empty nor one of the placeholders. */
  function FirstReal(env: Env, names: seq<string>): string {
    if names == [] then ""
    else if names[0] != "" && env.lower(names[0]) !in {"file.bin", "file", "image.png", "download.bin", "bin"} then names[0]
    else FirstReal(env, names[1..])
  }

  /** `f` is the first field that says something, or the first of all if none does. */
  predicate IsFirstTruthy(fields: seq<Field>, f: Field)
    requires fields != []
  {
    && (forall i :: 0 <= i < |fields| && Truthy(fields[i]) && (forall j :: 0 <= j < i ==> !Truthy(fields[j])) ==> f == fields[i])
    && ((forall i :: 0 <= i < |fields| ==> !Truthy(fields[i])) ==> f == fields[0])
  }

  lemma {:induction false} FirstSnoc(env: Env, texts: seq<string>, t: string)
    ensures FirstNonEmpty(texts + [t]) == if FirstNonEmpty(texts) != "" then FirstNonEmpty(texts) else t
    ensures FirstReal(env, texts + [t]) ==
      if FirstReal(env, texts) != "" then FirstReal(env, texts) else if t != "" && env.lower(t) !in WEAK then t else ""
    ensures FirstNonEmpty(texts) == "" ==> FirstReal(env, texts) == ""
    ensures FirstReal(env, texts) == "" && FirstNonEmpty(texts) != "" ==> env.lower(FirstNonEmpty(texts)) in WEAK
    ensures FirstReal(env, texts) != "" ==> env.lower(FirstReal(env, texts)) !in WEAK
  {
    if texts == [] {
      assert [] + [t] == [t] && [t][1..] == [];
    } else {
      assert (texts + [t])[1..] == texts[1..] + [t];
      FirstSnoc(env, texts[1..], t);
    }
  }

  lemma {:induction false} SomeFirstTruthy(fields: seq<Field>, i: nat)
    requires i < |fields| && Truthy(fields[i])
    ensures exists k :: 0 <= k <= i && Truthy(fields[k]) && (forall j :: 0 <= j < k ==> !Truthy(fields[j]))
  {
    if exists j :: 0 <= j < i && Truthy(fields[j]) {
      var j :| 0 <= j < i && Truthy(fields[j]);
      SomeFirstTruthy(fields, j);
    }
  }

  lemma TruthySnoc(fields: seq<Field>, f: Field, last: Field)
    requires fields != [] && IsFirstTruthy(fields, f)
    ensures IsFirstTruthy(fields + [last], if !Truthy(f) && Truthy(last) then last else f)
  {
    hide Truthy;
    var all := fields + [last];
    assert forall i :: 0 <= i < |fields| ==> all[i] == fields[i];
    if i :| 0 <= i < |fields| && Truthy(fields[i]) {
      SomeFirstTruthy(fields, i);
      assert Truthy(f);
    } else {
      assert f == fields[0] && !Truthy(f);
      assert all[|fields|] == last;
    }
  }

  function Ids(group: seq<Artifact>): (r: seq<Field>)
    ensures |r| == |group| && forall i :: 0 <= i < |group| ==> r[i] == group[i].fileId
  {
    seq(|group|, i requires 0 <= i < |group| => group[i].fileId)
  }

  function Paths(group: seq<Artifact>): (r: seq<Field>)
    ensures |r| == |group| && forall i :: 0 <= i < |group| ==> r[i] == group[i].path
  {
    seq(|group|, i requires 0 <= i < |group| => group[i].path)
  }

  function Names(group: seq<Artifact>): (r: seq<string>)
    ensures |r| == |group| && forall i :: 0 <= i < |group| ==> r[i] == group[i].filename
  {
    seq(|group|, i requires 0 <= i < |group| => group[i].filename)
  }

  function Types(group: seq<Artifact>): (r: seq<string>)
    ensures |r| == |group| && forall i :: 0 <= i < |group| ==> r[i] == group[i].contentType
  {
    seq(|group|, i requires 0 <= i < |group| => group[i].contentType)
  }

  function Kinds(group: seq<Artifact>): (r: seq<string>)
    ensures |r| == |group| && forall i :: 0 <= i < |group| ==> r[i] == group[i].kind
  {
    seq(|group|, i requires 0 <= i < |group| => group[i].kind)
  }

  /** The merged fields of a group: the first id and path; the first real name, else the first name; the first type;
      the first kind, unless a later input is an image. */
  predicate FieldsExactly(env: Env, group: seq<Artifact>, e: Artifact)
    requires group != []
  {
    && HandlesExactly(group, e)
    && e.filename == (if FirstReal(env, Names(group)) != "" then FirstReal(env, Names(group)) else FirstNonEmpty(Names(group)))
    && e.contentType == FirstNonEmpty(Types(group))
    && e.kind == (if LaterImage(group) then "image" else FirstNonEmpty(Kinds(group)))
  }

  predicate HandlesExactly(group: seq<Artifact>, e: Artifact)
    requires group != []
  {
    IsFirstTruthy(Ids(group), e.fileId) && IsFirstTruthy(Paths(group), e.path)
  }

  lemma HandlesStep(env: Env, init: seq<Artifact>, last: Artifact, base: Artifact)
    requires init != [] && HandlesExactly(init, base)
    ensures HandlesExactly(init + [last], Merge(env, base, last))
  {
    hide MergedName, IsFirstTruthy, Truthy;
    assert Ids(init + [last]) == Ids(init) + [last.fileId] && Paths(init + [last]) == Paths(init) + [last.path];
    TruthySnoc(Ids(init), base.fileId, last.fileId);
    TruthySnoc(Paths(init), base.path, last.path);
  }

  predicate LaterImage(group: seq<Artifact>) {
    exists i :: 0 < i < |group| && (group[i].kind == "image" || "image/" <= group[i].contentType)
  }

  lemma NameStep(env: Env, names: seq<string>, base: string, extra: string)
    requires base == if FirstReal(env, names) != "" then FirstReal(env, names) else FirstNonEmpty(names)
    ensures var all := names + [extra];
            MergedName(env, base, extra) == if FirstReal(env, all) != "" then FirstReal(env, all) else FirstNonEmpty(all)
  {
    hide FirstReal, FirstNonEmpty;
    FirstSnoc(env, names, extra);
  }

  lemma ImageLater(group: seq<Artifact>)
    requires |group| > 1
    ensures LaterImage(group) <==> LaterImage(group[..|group| - 1]) || Image(group[|group| - 1])
  {
    var init := group[..|group| - 1];
    if i :| 0 < i < |init| && (init[i].kind == "image" || "image/" <= init[i].contentType) {
      assert group[i] == init[i];
    }
    if i :| 0 < i < |group| && (group[i].kind == "image" || "image/" <= group[i].contentType) {
      if i < |init| {
        assert init[i] == group[i];
      }
    }
  }

  lemma {:induction false} GroupExactly(env: Env, group: seq<Artifact>)
    requires group != []
    ensures FieldsExactly(env, group, MergedAll(env, group))
  {
    hide MergedName, LaterImage, Image, HandlesExactly;
    if |group| == 1 {
      OneMember(env, group);
    } else {
      var init, last := group[..|group| - 1], group[|group| - 1];
      var base := MergedAll(env, init);
      GroupExactly(env, init);
      assert Names(group) == Names(init) + [last.filename];
      assert Types(group) == Types(init) + [last.contentType];
      assert Kinds(group) == Kinds(init) + [last.kind];
      assert group == init + [last];
      HandlesStep(env, init, last, base);
      NameStep(env, Names(init), base.filename, last.filename);
      FirstSnoc(env, Types(init), last.contentType);
      FirstSnoc(env, Kinds(init), last.kind);
      ImageLater(group);
      if LaterImage(init) {
        assert base.kind == "image";
      }
    }
  }

  lemma OneMember(env: Env, group: seq<Artifact>)
    requires |group| == 1
    ensures FieldsExactly(env, group, group[0])
  {
    var a := group[0];
    assert Names(group) == [] + [a.filename] && Types(group) == [] + [a.contentType] && Kinds(group) == [] + [a.kind];
    FirstSnoc(env, [], a.filename);
    FirstSnoc(env, [], a.contentType);
    FirstSnoc(env, [], a.kind);
  }

  /** What every entry of the output says, in terms of the inputs that went into it. */
  lemma EntryExactly(env: Env, arts: seq<Artifact>, k: nat)
    requires k < |Run(env, arts).out|
    ensures Members(env, arts, k) != [] && FieldsExactly(env, Members(env, arts, k), Run(env, arts).out[k])
  {
    hide FieldsExactly, Members, Run;
    EntriesAreMergedGroups(env, arts, k);
    GroupExactly(env, Members(env, arts, k));
  }

  // ---- Which entry an input joins, and which path it is stored under ----

  /** A path is a string with something but white space in it that is no served URL and resolves to something; it is
      taken without its outer white space. */
  lemma PathExactly(env: Env, f: Field, p: string)
    ensures PathOf(env, f) == Some(p) <==>
      f.Str? && exists t :: IsInner(f.text, t) && t != "" && !("/api/" <= t) && env.resolve(t) == p && p != ""
  {
    hide Strip, IsInner;
    if f.Str? {
      forall t ensures IsInner(f.text, t) <==> t == Strip(f.text) {
        InnerIsStrip(f.text, t);
      }
    }
  }

  lemma IdExactly(f: Field, id: string)
    ensures AsStr(f) == Some(id) <==> f.Str? && IsInner(f.text, id) && id != ""
  {
    hide Strip, IsInner;
    if f.Str? {
      InnerIsStrip(f.text, id);
    }
  }

  ghost predicate NamesId(f: Field, id: string) {
    f.Str? && IsInner(f.text, id) && id != ""
  }

  /** An input goes to the entry with its id; else to one that holds its path; else to a new one. */
  lemma JoinsExactly(env: Env, arts: seq<Artifact>, n: nat)
    requires n < |arts|
    ensures var out, a := Run(env, arts[..n]).out, arts[n];
            var k := Owner(env, Run(env, arts[..n]), a);
            var known := exists j, id :: 0 <= j < |out| && NamesId(out[j].fileId, id) && NamesId(a.fileId, id);
            && (k.None? <==> PathOf(env, a.path).None? && forall id :: !NamesId(a.fileId, id))
            && (k.Some? ==> k.value <= |out|)
            && (forall j, id :: 0 <= j < |out| && NamesId(out[j].fileId, id) && NamesId(a.fileId, id) ==> k == Some(j))
            && (!known && k.Some? && k.value < |out| ==>
                  PathOf(env, a.path).Some? && Holds(env, out[k.value], PathOf(env, a.path).value))
  {
    hide Run, Holds, PathOf, IsInner, NormalizePath, AsStr;
    var s, a := Run(env, arts[..n]), arts[n];
    forall f, id ensures AsStr(f) == Some(id) <==> NamesId(f, id) {
      IdExactly(f, id);
    }
  }

  // ---- Paths ----

  ghost predicate PathsDistinct(env: Env, out: seq<Artifact>) {
    forall j, k :: 0 <= j < k < |out| && PathOf(env, out[j].path).Some? ==> PathOf(env, out[j].path) != PathOf(env, out[k].path)
  }

  /** The input joins, by id, an entry without a path while its path belongs to another entry. */
  predicate Bridges(env: Env, s: State, a: Artifact)
    requires Sound(env, s)
  {
    var id, path := AsStr(a.fileId), PathOf(env, a.path);
    && id.Some? && id.value in s.byId && !Truthy(s.out[s.byId[id.value]].path)
    && path.Some? && path.value in s.byPath && PathOf(env, Str(path.value)) == path
  }

  /** No input, at the moment it is handled, bridges two entries. */
  predicate NeverBridges(env: Env, arts: seq<Artifact>) {
    arts != [] ==>
      var init, a := arts[..|arts| - 1], arts[|arts| - 1];
      NeverBridges(env, init) && !Bridges(env, Run(env, init), a)
  }

  /** Resolving a resolved path changes nothing. */
  ghost predicate Settled(env: Env) {
    forall f :: PathOf(env, f).Some? ==> var again := PathOf(env, Str(PathOf(env, f).value)); again.Some? ==> again == PathOf(env, f)
  }

  predicate PathsIndexed(env: Env, s: State) {
    forall k :: 0 <= k < |s.out| ==>
      var p := PathOf(env, s.out[k].path); p.Some? ==> p.value in s.byPath && s.byPath[p.value] == k
  }

  lemma HeldIsTruthy(env: Env, e: Artifact, p: string)
    ensures Holds(env, e, p) ==> Truthy(e.path)
  {
    assert Strip("") == "";
  }

  lemma IndexedStep(env: Env, s: State, a: Artifact)
    requires Sound(env, s) && Settled(env) && PathsIndexed(env, s) && !Bridges(env, s, a)
    ensures PathsIndexed(env, Step(env, s, a))
  {
    hide NormalizePath, PathOf, MergedName, AsStr, Holds;
    var m, s' := Match(env, s, a), Step(env, s, a);
    if m.Some? {
      var merged := Merge(env, s.out[m.value], Canonical(env, a));
      MergeKeeps(env, s.out[m.value], Canonical(env, a));
      forall p ensures Holds(env, s.out[m.value], p) ==> Truthy(s.out[m.value].path) {
        HeldIsTruthy(env, s.out[m.value], p);
      }
      assert forall k :: 0 <= k < |s.out| && k != m.value ==> s'.out[k] == s.out[k];
    } else {
      assert forall k :: 0 <= k < |s.out| ==> s'.out[k] == s.out[k];
    }
  }

  lemma BridgeDuplicates(env: Env, s: State, a: Artifact)
    requires Sound(env, s) && Bridges(env, s, a)
    ensures !PathsDistinct(env, Step(env, s, a).out)
  {
    hide NormalizePath, MergedName, AsStr;
    var id, path := AsStr(a.fileId), PathOf(env, a.path);
    var j, m := s.byPath[path.value], s.byId[id.value];
    HeldIsTruthy(env, s.out[j], path.value);
    var out := Step(env, s, a).out;
    assert j != m && out[j] == s.out[j];
    assert PathOf(env, out[j].path) == path && PathOf(env, out[m].path) == path;
    if j < m {
      assert PathOf(env, out[j].path) == PathOf(env, out[m].path);
    } else {
      assert PathOf(env, out[m].path) == PathOf(env, out[j].path);
    }
  }

  lemma DuplicatesStay(env: Env, s: State, a: Artifact)
    requires Sound(env, s) && !PathsDistinct(env, s.out)
    ensures !PathsDistinct(env, Step(env, s, a).out)
  {
    hide NormalizePath, MergedName, AsStr, PathOf;
    var j, k :| 0 <= j < k < |s.out| && PathOf(env, s.out[j].path).Some? && PathOf(env, s.out[j].path) == PathOf(env, s.out[k].path);
    var out := Step(env, s, a).out;
    StoredPathStays(env, s, a, j);
    StoredPathStays(env, s, a, k);
    assert PathOf(env, out[j].path) == PathOf(env, out[k].path);
  }

  lemma StoredPathStays(env: Env, s: State, a: Artifact, k: nat)
    requires Sound(env, s) && k < |s.out| && PathOf(env, s.out[k].path).Some?
    ensures k < |Step(env, s, a).out| && Step(env, s, a).out[k].path == s.out[k].path
  {
    hide NormalizePath, MergedName, AsStr, Merge;
    OwnPath(env, s.out[k]);
    if Match(env, s, a) == Some(k) {
      MergeKeeps(env, s.out[k], Canonical(env, a));
    }
  }

  lemma IndexedIsDistinct(env: Env, s: State)
    requires PathsIndexed(env, s)
    ensures PathsDistinct(env, s.out)
  {
    hide PathOf;
  }

  lemma NothingIndexed(env: Env)
    ensures PathsDistinct(env, []) && PathsIndexed(env, State([], map[], map[]))
  {
  }

  /** The documented uniqueness of paths holds exactly if no input bridges two entries. */
  lemma {:induction false} PathsDistinctExactly(env: Env, arts: seq<Artifact>)
    requires Settled(env)
    ensures PathsDistinct(env, Run(env, arts).out) <==> NeverBridges(env, arts)
    ensures NeverBridges(env, arts) ==> PathsIndexed(env, Run(env, arts))
  {
    hide Bridges, Sound, Settled, Step, PathOf, PathsDistinct, PathsIndexed;
    if arts != [] {
      var init, a := arts[..|arts| - 1], arts[|arts| - 1];
      var s := Run(env, init);
      PathsDistinctExactly(env, init);
      if Bridges(env, s, a) {
        BridgeDuplicates(env, s, a);
      } else if NeverBridges(env, init) {
        IndexedStep(env, s, a);
        IndexedIsDistinct(env, Run(env, arts));
      } else {
        DuplicatesStay(env, s, a);
      }
    } else {
      NothingIndexed(env);
    }
  }

  lemma OnlyAnId(env: Env, x: Artifact)
    requires x.fileId == Str("f") && x.path == NotStr(false)
    ensures Run(env, [x]) == State([x], map["f" := 0], map[])
  {
    hide MergedName, Merge, Strip;
    assert AsStr(x.fileId) == Some("f") by { assert Trimmed("f"); }
    assert [x][..0] == [];
    assert Run(env, [x]) == Step(env, State([], map[], map[]), x);
  }

  lemma OnlyAPath(env: Env, s: State, y: Artifact)
    requires y.fileId == NotStr(false) && PathOf(env, y.path) == Some("/tmp/a.png") && s.byPath == map[]
    ensures Match(env, s, y) == None
    ensures Step(env, s, y) == State(s.out + [Canonical(env, y)], s.byId, map["/tmp/a.png" := |s.out|])
  {
    hide MergedName, Merge, Strip, PathOf;
  }

  lemma TwoApart(env: Env, x: Artifact, y: Artifact)
    requires env.resolve("/tmp/a.png") == "/tmp/a.png"
    requires x.fileId == Str("f") && x.path == y.fileId == NotStr(false) && y.path == Str("/tmp/a.png")
    ensures Bridges(env, Run(env, [x, y]), x.(path := y.path))
  {
    hide Sound, Merge, Strip, PathOf, Match, Step, Canonical;
    PathIsPath(env, y.path);
    OnlyAnId(env, x);
    assert [x, y][..1] == [x];
    OnlyAPath(env, Run(env, [x]), y);
    assert AsStr(x.fileId) == Some("f") by { assert Trimmed("f"); }
  }

  lemma PathIsPath(env: Env, f: Field)
    requires env.resolve("/tmp/a.png") == "/tmp/a.png" && f == Str("/tmp/a.png")
    ensures PathOf(env, f) == Some("/tmp/a.png")
  {
    assert Trimmed("/tmp/a.png");
    assert "/tmp/a.png"[1] != "/api/"[1];
  }

  /** A file known once by id, once by path, and then by both, is delivered twice. */
  lemma BridgedFileTwice(env: Env, other: Artifact)
    requires env.resolve("/tmp/a.png") == "/tmp/a.png"
    ensures var none := NotStr(false);
            var arts := [other.(fileId := Str("f"), path := none), other.(fileId := none, path := Str("/tmp/a.png")),
                         other.(fileId := Str("f"), path := Str("/tmp/a.png"))];
            !PathsDistinct(env, Run(env, arts).out)
  {
    hide MergedName, Bridges, PathsDistinct;
    var none := NotStr(false);
    var x := other.(fileId := Str("f"), path := none);
    var y := other.(fileId := none, path := Str("/tmp/a.png"));
    var z := other.(fileId := Str("f"), path := Str("/tmp/a.png"));
    assert [x, y, z][..2] == [x, y] && [x, y][..1] == [x] && [x][..0] == [];
    assert Trimmed("f") && Trimmed("/tmp/a.png");
    TwoApart(env, x, y);
    BridgeDuplicates(env, Run(env, [x, y]), z);
    assert Run(env, [x, y, z]) == Step(env, Run(env, [x, y]), z);
  }
}
