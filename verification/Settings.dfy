/** gui/settings_store.py: the settings document, its split into a public and a secret file, and what
    saving, loading and patching do to it.  SettingsStore.dfy has the operations on the files. */
module Settings {
  import opened Hashing
  import opened JsonValue

  /* ---------------------------------------------------------------- deep merge */

  function Merge(base: Json, patch: Json): (r: Json)
    requires base.Obj? && patch.Obj?
    ensures r.Obj? && r.m.Keys == base.m.Keys + patch.m.Keys
    decreases patch
  {
    Obj(map k | k in base.m.Keys + patch.m.Keys ::
      if k !in patch.m then base.m[k]
      else if k in base.m && base.m[k].Obj? && patch.m[k].Obj? then Merge(base.m[k], patch.m[k])
      else patch.m[k])
  }

  lemma {:induction false} MergeSelf(a: Json)
    requires a.Obj?
    ensures Merge(a, a) == a
    decreases a
  {
    forall k | k in a.m && a.m[k].Obj? ensures Merge(a.m[k], a.m[k]) == a.m[k] { MergeSelf(a.m[k]); }
    assert Merge(a, a).m == a.m;
  }

  /** Merging over the same base twice is merging once. */
  lemma {:induction false} MergeOverBaseTwice(base: Json, patch: Json)
    requires base.Obj? && patch.Obj?
    ensures Merge(base, Merge(base, patch)) == Merge(base, patch)
    decreases patch
  {
    var q := Merge(base, patch);
    forall k | k in base.m && base.m[k].Obj? && q.m[k].Obj? ensures Merge(base.m[k], q.m[k]) == q.m[k] {
      if k in patch.m && patch.m[k].Obj? {
        MergeOverBaseTwice(base.m[k], patch.m[k]);
      } else {
        MergeSelf(base.m[k]);
      }
    }
    assert Merge(base, q).m == q.m;
  }

  /** Applying the same patch twice is applying it once. */
  lemma {:induction false} PatchTwice(a: Json, patch: Json)
    requires a.Obj? && patch.Obj?
    ensures Merge(Merge(a, patch), patch) == Merge(a, patch)
    decreases patch
  {
    var q := Merge(a, patch);
    forall k | k in patch.m && patch.m[k].Obj? ensures q.m[k].Obj? && Merge(q.m[k], patch.m[k]) == q.m[k] {
      if k in a.m && a.m[k].Obj? {
        PatchTwice(a.m[k], patch.m[k]);
      } else {
        MergeSelf(patch.m[k]);
      }
    }
    assert Merge(q, patch).m == q.m;
  }

  /** A patch that changes nothing in `q` changes nothing in `q` merged over a base. */
  lemma {:induction false} PatchUnderBase(base: Json, q: Json, patch: Json)
    requires base.Obj? && q.Obj? && patch.Obj?
    requires Merge(q, patch) == q
    ensures Merge(Merge(base, q), patch) == Merge(base, q)
    decreases patch
  {
    var x := Merge(base, q);
    assert forall k | k in patch.m :: k in Merge(q, patch).m;
    forall k | k in patch.m
      ensures k in x.m && Merge(x, patch).m[k] == x.m[k]
    {
      assert Merge(q, patch).m[k] == q.m[k];
      if patch.m[k].Obj? && q.m[k].Obj? {
        if k in base.m && base.m[k].Obj? {
          PatchUnderBase(base.m[k], q.m[k], patch.m[k]);
        }
      }
    }
    assert Merge(x, patch).m == x.m;
  }

  /** The document has every key of the base, at every depth at which both have a block. */
  predicate Covers(q: Json, base: Json)
    requires base.Obj? && q.Obj?
    decreases q
  {
    forall k | k in base.m :: k in q.m && (base.m[k].Obj? && q.m[k].Obj? ==> Covers(q.m[k], base.m[k]))
  }

  /** Exactly then the base adds nothing to it. */
  lemma {:induction false} MergeAbsorbed(base: Json, q: Json)
    requires base.Obj? && q.Obj?
    ensures Merge(base, q) == q <==> Covers(q, base)
    decreases q
  {
    forall k | k in base.m && k in q.m && base.m[k].Obj? && q.m[k].Obj?
      ensures Merge(base.m[k], q.m[k]) == q.m[k] <==> Covers(q.m[k], base.m[k])
    {
      MergeAbsorbed(base.m[k], q.m[k]);
    }
    if Covers(q, base) {
      assert Merge(base, q).m == q.m;
    }
    if Merge(base, q) == q {
      forall k | k in base.m ensures k in q.m && Merge(base, q).m[k] == q.m[k] {
        assert k in Merge(base, q).m;
      }
    }
  }

  /** What a document holds at a path of keys. */
  function At(doc: Json, path: seq<string>): Option<Json> {
    if path == [] then Some(doc)
    else if doc.Obj? && path[0] in doc.m then At(doc.m[path[0]], path[1..])
    else None
  }

  /** Somewhere on the way the patch has a value that is not a block. */
  ghost predicate CutsOff(patch: Json, path: seq<string>) {
    exists n :: 0 <= n < |path| && At(patch, path[..n]).Some? && !At(patch, path[..n]).value.Obj?
  }

  lemma {:induction false} CutsOffFurther(patch: Json, path: seq<string>)
    requires path != [] && patch.Obj?
    ensures CutsOff(patch, path) <==> path[0] in patch.m && CutsOff(patch.m[path[0]], path[1..])
  {
    if CutsOff(patch, path) {
      var n :| 0 <= n < |path| && At(patch, path[..n]).Some? && !At(patch, path[..n]).value.Obj?;
      assert n > 0 && path[..n][1..] == path[1..][..n - 1];
      assert At(patch.m[path[0]], path[1..][..n - 1]) == At(patch, path[..n]);
    }
    if path[0] in patch.m && CutsOff(patch.m[path[0]], path[1..]) {
      var n :| 0 <= n < |path[1..]| && At(patch.m[path[0]], path[1..][..n]).Some? && !At(patch.m[path[0]], path[1..][..n]).value.Obj?;
      assert path[..n + 1][1..] == path[1..][..n];
      assert At(patch, path[..n + 1]) == At(patch.m[path[0]], path[1..][..n]);
    }
  }

  /** A merge, path by path: what the patch has there wins, two blocks are merged, and what it does not mention is as
      in the base, unless it has put a value that is not a block on the way. */
  lemma {:induction false} MergeAt(base: Json, patch: Json, path: seq<string>)
    requires base.Obj? && patch.Obj?
    ensures var (r, b, p) := (At(Merge(base, patch), path), At(base, path), At(patch, path));
            && (p.Some? && !(p.value.Obj? && b.Some? && b.value.Obj?) ==> r == p)
            && (p.Some? && p.value.Obj? && b.Some? && b.value.Obj? ==> r == Some(Merge(b.value, p.value)))
            && (p.None? ==> r == if CutsOff(patch, path) then None else b)
    decreases path
  {
    if path != [] {
      var (k, rest, r) := (path[0], path[1..], Merge(base, patch));
      CutsOffFurther(patch, path);
      if k !in patch.m {
        assert k in base.m ==> r.m[k] == base.m[k];
      } else if k in base.m && base.m[k].Obj? && patch.m[k].Obj? {
        MergeAt(base.m[k], patch.m[k], rest);
      } else {
        assert r.m[k] == patch.m[k];
        if rest != [] && !patch.m[k].Obj? {
          assert rest[..0] == [] && At(patch.m[k], rest[..0]) == Some(patch.m[k]);
          assert CutsOff(patch.m[k], rest);
        }
      }
    }
  }

  /* ---------------------------------------------------------------- secrets */

  function Upper(c: char): char {
    if 'a' <= c <= 'z' then (c as int - 32) as char else c
  }

  predicate EndsWith(s: string, t: string) {
    |t| <= |s| && forall i | 0 <= i < |t| :: Upper(s[|s| - |t| + i]) == t[i]
  }

  /** Environment keys that hold credentials. */
  predicate IsSecretKey(key: string) {
    EndsWith(key, "_API_KEY") || EndsWith(key, "_KEY")
  }

  /** They are the keys whose last four characters spell `_KEY`, in letters of either case. */
  lemma {:induction false} SecretKeysAre(key: string)
    ensures IsSecretKey(key) <==>
            && |key| >= 4 && key[|key| - 4] == '_'
            && (key[|key| - 3] == 'k' || key[|key| - 3] == 'K') && (key[|key| - 2] == 'e' || key[|key| - 2] == 'E') && (key[|key| - 1] == 'y' || key[|key| - 1] == 'Y')
  {
    var n := |key|;
    if EndsWith(key, "_API_KEY") {
      assert forall i | 0 <= i < 4 :: "_API_KEY"[4 + i] == "_KEY"[i];
      forall i | 0 <= i < 4 ensures Upper(key[n - 4 + i]) == "_KEY"[i] {
        assert Upper(key[n - 8 + (4 + i)]) == "_API_KEY"[4 + i];
      }
    }
    if EndsWith(key, "_KEY") {
      assert forall i | 0 <= i < 4 :: Upper(key[n - 4 + i]) == "_KEY"[i];
      assert "_KEY"[0] == '_' && "_KEY"[1] == 'K' && "_KEY"[2] == 'E' && "_KEY"[3] == 'Y';
    }
    if n >= 4 && Upper(key[n - 4]) == '_' && Upper(key[n - 3]) == 'K' && Upper(key[n - 2]) == 'E' && Upper(key[n - 1]) == 'Y' {
      assert EndsWith(key, "_KEY");
    }
  }

  /** What the store takes from elsewhere: the default document and the provider names of the catalog,
      and Python's `not s.strip()`, `str(v)` and `int(s)`. */
  datatype Catalog = Catalog(defaults: Json, providers: set<string>, blank: string -> bool, render: Json -> string, parseInt: string -> Option<int>) {
    ghost predicate Valid() {
      && defaults.Obj? && {"env", "version", "updated_at"} <= defaults.m.Keys
      && defaults.m["env"] == Obj(map[]) && defaults.m["version"] == Int(1) && defaults.m["updated_at"] == Null
      && (forall s :: render(Str(s)) == s)
      && (forall v: Json :: !v.Str? && !v.Null? ==> !blank(render(v)))
    }

    /** A slot that counts as unset. */
    predicate Unset(v: Json) {
      v.Null? || (v.Str? && blank(v.s))
    }
  }

  function EnvOf(doc: Json): Option<map<string, Json>>
    requires doc.Obj?
  {
    if "env" in doc.m && doc.m["env"].Obj? then Some(doc.m["env"].m) else None
  }

  function WithEnv(doc: Json, env: map<string, Json>): Json
    requires doc.Obj?
  {
    Obj(doc.m["env" := Obj(env)])
  }

  /** The public part: secret slots are kept, empty. */
  function PublicEnv(env: map<string, Json>): map<string, Json> {
    map k | k in env :: if IsSecretKey(k) then Null else env[k]
  }

  function SecretsOf(c: Catalog, env: map<string, Json>): map<string, string> {
    map k | k in env && IsSecretKey(k) && !c.Unset(env[k]) :: c.render(env[k])
  }

  function Public(doc: Json): Json
    requires doc.Obj?
  {
    match EnvOf(doc) case None => doc case Some(env) => WithEnv(doc, PublicEnv(env))
  }

  function Secrets(c: Catalog, doc: Json): map<string, string>
    requires doc.Obj?
  {
    match EnvOf(doc) case None => map[] case Some(env) => SecretsOf(c, env)
  }

  /** Each secret slot normalised: unset to null, anything else to its text. */
  function NormalEnv(c: Catalog, env: map<string, Json>): map<string, Json> {
    map k | k in env :: if !IsSecretKey(k) then env[k] else if c.Unset(env[k]) then Null else Str(c.render(env[k]))
  }

  function Normal(c: Catalog, doc: Json): Json
    requires doc.Obj?
  {
    match EnvOf(doc) case None => doc case Some(env) => WithEnv(doc, NormalEnv(c, env))
  }

  /** `mask_secrets` */
  function MaskedEnv(c: Catalog, env: map<string, Json>): map<string, Json> {
    map k | k in env :: if !IsSecretKey(k) then env[k] else if c.Unset(env[k]) then Null else Str("set")
  }

  function Masked(c: Catalog, doc: Json): Json {
    if !doc.Obj? then Obj(map[])
    else match EnvOf(doc) case None => doc case Some(env) => WithEnv(doc, MaskedEnv(c, env))
  }

  /** One slot in the three views: a key that spells a secret is null in public, has its text among the secrets unless
      it is unset, and shows as `set` or null; any other is public and shown as it is, and no secret. */
  lemma {:induction false} SlotIs(c: Catalog, env: map<string, Json>, k: string)
    requires k in env
    ensures var (v, public, secrets, shown) := (env[k], PublicEnv(env)[k], SecretsOf(c, env), MaskedEnv(c, env)[k]);
            if |k| >= 4 && k[|k| - 4] == '_' && (k[|k| - 3] == 'k' || k[|k| - 3] == 'K') && (k[|k| - 2] == 'e' || k[|k| - 2] == 'E') && (k[|k| - 1] == 'y' || k[|k| - 1] == 'Y')
            then
              && public == Null
              && if v.Null? || (v.Str? && c.blank(v.s)) then k !in secrets && shown == Null
                 else k in secrets && secrets[k] == c.render(v) && shown == Str("set")
            else public == v && shown == v && k !in secrets
  {
    SecretKeysAre(k);
  }

  /** The public file never has a non-null secret slot. */
  lemma {:induction false} PublicHasNoSecrets(doc: Json)
    requires doc.Obj?
    ensures var env := EnvOf(Public(doc)); env.Some? ==> forall k | k in env.value && IsSecretKey(k) :: env.value[k] == Null
    ensures EnvOf(Public(doc)).Some? <==> EnvOf(doc).Some?
  {
  }

  /** Masking reveals of each secret only whether it is set. */
  lemma {:induction false} MaskHidesSecrets(c: Catalog, a: Json, b: Json)
    requires a.Obj? && b.Obj? && EnvOf(a).Some? && EnvOf(b).Some?
    requires Public(a) == Public(b)
    requires forall k | k in EnvOf(a).value && IsSecretKey(k) && k in EnvOf(b).value :: c.Unset(EnvOf(a).value[k]) <==> c.Unset(EnvOf(b).value[k])
    ensures Masked(c, a) == Masked(c, b)
  {
    var (x, y) := (EnvOf(a).value, EnvOf(b).value);
    assert Public(a).m["env"].m == PublicEnv(x) && Public(b).m["env"].m == PublicEnv(y);
    assert x.Keys == PublicEnv(x).Keys && y.Keys == PublicEnv(y).Keys;
    forall k | k in x ensures MaskedEnv(c, x)[k] == MaskedEnv(c, y)[k] {
      assert PublicEnv(x)[k] == PublicEnv(y)[k];
    }
    assert MaskedEnv(c, x) == MaskedEnv(c, y);
    forall k | k in a.m && k != "env" ensures k in b.m && a.m[k] == b.m[k] {
      assert k in Public(a).m && Public(a).m[k] == a.m[k];
      assert k in Public(b).m;
    }
    forall k | k in b.m && k != "env" ensures k in a.m {
      assert k in Public(b).m;
    }
    assert Masked(c, a).m == Masked(c, b).m;
  }

  /* ---------------------------------------------------------------- the two files */

  /** A file that exists but cannot be read or parsed is `Unreadable`. */
  datatype Content = Unreadable | Readable(doc: Json)

  datatype Files = Files(settings: Option<Content>, secrets: Option<Content>)

  function SecretsJson(secrets: map<string, string>): Json {
    Obj(map k | k in secrets :: Str(secrets[k]))
  }

  function WriteSplit(c: Catalog, doc: Json): Files
    requires doc.Obj?
  {
    Files(Some(Readable(Public(doc))), Some(Readable(SecretsJson(Secrets(c, doc)))))
  }

  /** Only well-formed entries of the secret file count. */
  function ReadSecrets(c: Catalog, files: Files): map<string, string> {
    match files.secrets
    case Some(Readable(Obj(m))) => map k | k in m && IsSecretKey(k) && m[k].Str? && !c.blank(m[k].s) :: m[k].s
    case _ => map[]
  }

  predicate HasPlaintextSecrets(c: Catalog, doc: Json)
    requires doc.Obj?
  {
    var env := EnvOf(doc);
    env.Some? && exists k | k in env.value :: IsSecretKey(k) && env.value[k].Str? && !c.blank(env.value[k].s)
  }

  function WithSecrets(doc: Json, secrets: map<string, string>): (r: Json)
    requires doc.Obj?
    ensures r.Obj?
  {
    if secrets == map[] then doc
    else
      var env := match EnvOf(doc) { case None => map[] case Some(env) => env };
      WithEnv(doc, env + map k | k in secrets :: Str(secrets[k]))
  }

  function OnDisk(files: Files): Option<Json> {
    match files.settings
    case Some(Readable(Obj(m))) => Some(Obj(m))
    case _ => None
  }

  /** `load_settings`: the document it returns .. */
  function LoadedDoc(c: Catalog, files: Files): (r: Json)
    requires c.defaults.Obj?
    ensures r.Obj?
  {
    match OnDisk(files)
    case None => c.defaults
    case Some(doc) => WithSecrets(Merge(c.defaults, doc), ReadSecrets(c, files))
  }

  /** .. and the files it leaves: a document that still has plaintext secrets is split on the way. */
  function FilesAfterLoad(c: Catalog, files: Files): Files
    requires c.defaults.Obj?
  {
    match OnDisk(files)
    case None => files
    case Some(doc) => if HasPlaintextSecrets(c, doc) then WriteSplit(c, LoadedDoc(c, files)) else files
  }

  /* ---------------------------------------------------------------- validation */

  /** `value in (None, "")` or the name of a provider; anything else raises. */
  predicate ProviderSlotOk(c: Catalog, block: map<string, Json>, field: string) {
    field in block ==> block[field].Null? || (block[field].Str? && (block[field].s == "" || block[field].s in c.providers))
  }

  /** The `model_routing` block; a false value counts as an empty one. */
  function RoutingOf(doc: Json): Json
    requires doc.Obj?
  {
    if "model_routing" in doc.m && doc.m["model_routing"].Truthy() then doc.m["model_routing"] else Obj(map[])
  }

  predicate ModeOk(routing: Json) {
    && routing.Obj?
    && var global := if "global" in routing.m && routing.m["global"].Truthy() then routing.m["global"] else Obj(map[]);
       global.Obj? && ("mode" in global.m ==> global.m["mode"] in [Null, Str("local"), Str("api")])
  }

  predicate TasksOk(c: Catalog, routing: Json) {
    routing.Obj? ==> forall task | task in routing.m && routing.m[task].Obj? ::
      ProviderSlotOk(c, routing.m[task].m, "provider") && ProviderSlotOk(c, routing.m[task].m, "vision_provider")
  }

  predicate EnvOk(c: Catalog, doc: Json)
    requires doc.Obj?
  {
    var env := EnvOf(doc);
    env.Some? ==>
      && ("LLM_MODE" in env.value ==> env.value["LLM_MODE"] in [Null, Str(""), Str("local"), Str("api")])
      && ProviderSlotOk(c, env.value, "LLM_PROVIDER")
  }

  predicate Acceptable(c: Catalog, doc: Json)
    requires doc.Obj?
  {
    ModeOk(RoutingOf(doc)) && TasksOk(c, RoutingOf(doc)) && EnvOk(c, doc)
  }

  /** A provider slot may be absent, null, blank or name a provider. */
  ghost predicate NoOrKnown(c: Catalog, v: Option<Json>) {
    v.None? || v.value.Null? || (v.value.Str? && (v.value.s == "" || v.value.s in c.providers))
  }

  ghost predicate BlockOrFalse(v: Option<Json>) {
    v.Some? ==> v.value.Obj? || v.value in [Null, Bool(false), Int(0), Float(0.0), Str(""), Arr([])]
  }

  /** Which documents the checks accept, by what they hold at the paths looked at. */
  lemma {:induction false} AcceptableMeans(c: Catalog, doc: Json)
    requires doc.Obj?
    ensures Acceptable(c, doc) <==>
            && BlockOrFalse(At(doc, ["model_routing"])) && BlockOrFalse(At(doc, ["model_routing", "global"]))
            && At(doc, ["model_routing", "global", "mode"]) in [None, Some(Null), Some(Str("local")), Some(Str("api"))]
            && (forall task :: NoOrKnown(c, At(doc, ["model_routing", task, "provider"])) && NoOrKnown(c, At(doc, ["model_routing", task, "vision_provider"])))
            && At(doc, ["env", "LLM_MODE"]) in [None, Some(Null), Some(Str("")), Some(Str("local")), Some(Str("api"))]
            && NoOrKnown(c, At(doc, ["env", "LLM_PROVIDER"]))
  {
    ModeMeans(doc);
    EnvMeans(c, doc);
    if ModeOk(RoutingOf(doc)) {
      TasksMean(c, doc);
    }
  }

  lemma {:induction false} ModeMeans(doc: Json)
    requires doc.Obj?
    ensures ModeOk(RoutingOf(doc)) <==>
            && BlockOrFalse(At(doc, ["model_routing"])) && BlockOrFalse(At(doc, ["model_routing", "global"]))
            && At(doc, ["model_routing", "global", "mode"]) in [None, Some(Null), Some(Str("local")), Some(Str("api"))]
  {
    Steps(doc, "model_routing", "global", "mode");
    if "model_routing" in doc.m {
      FalseValues(doc.m["model_routing"]);
      if doc.m["model_routing"].Obj? && "global" in doc.m["model_routing"].m {
        FalseValues(doc.m["model_routing"].m["global"]);
      }
    }
  }

  lemma {:induction false} TasksMean(c: Catalog, doc: Json)
    requires doc.Obj? && BlockOrFalse(At(doc, ["model_routing"]))
    ensures TasksOk(c, RoutingOf(doc)) <==>
            forall task :: NoOrKnown(c, At(doc, ["model_routing", task, "provider"])) && NoOrKnown(c, At(doc, ["model_routing", task, "vision_provider"]))
  {
    var routing := RoutingOf(doc);
    Steps(doc, "model_routing", "", "");
    if "model_routing" in doc.m {
      FalseValues(doc.m["model_routing"]);
    }
    forall task
      ensures (task in routing.m && routing.m[task].Obj? ==>
                 ProviderSlotOk(c, routing.m[task].m, "provider") && ProviderSlotOk(c, routing.m[task].m, "vision_provider")) <==>
              NoOrKnown(c, At(doc, ["model_routing", task, "provider"])) && NoOrKnown(c, At(doc, ["model_routing", task, "vision_provider"]))
    {
      Steps(doc, "model_routing", task, "provider");
      Steps(doc, "model_routing", task, "vision_provider");
    }
  }

  lemma {:induction false} EnvMeans(c: Catalog, doc: Json)
    requires doc.Obj?
    ensures EnvOk(c, doc) <==>
            && At(doc, ["env", "LLM_MODE"]) in [None, Some(Null), Some(Str("")), Some(Str("local")), Some(Str("api"))]
            && NoOrKnown(c, At(doc, ["env", "LLM_PROVIDER"]))
  {
    Steps(doc, "env", "LLM_MODE", "");
    Steps(doc, "env", "LLM_PROVIDER", "");
  }

  lemma {:induction false} AtSnoc(doc: Json, path: seq<string>, k: string)
    ensures var v := At(doc, path); At(doc, path + [k]) == if v.Some? && v.value.Obj? && k in v.value.m then Some(v.value.m[k]) else None
  {
    if path == [] {
      assert [] + [k] == [k] && [k][1..] == [];
    } else {
      assert (path + [k])[1..] == path[1..] + [k];
      if doc.Obj? && path[0] in doc.m {
        AtSnoc(doc.m[path[0]], path[1..], k);
      }
    }
  }

  lemma {:induction false} Steps(doc: Json, a: string, b: string, c: string)
    ensures var (x, y) := (At(doc, [a]), At(doc, [a, b]));
            && x == (if doc.Obj? && a in doc.m then Some(doc.m[a]) else None)
            && y == (if x.Some? && x.value.Obj? && b in x.value.m then Some(x.value.m[b]) else None)
            && At(doc, [a, b, c]) == (if y.Some? && y.value.Obj? && c in y.value.m then Some(y.value.m[c]) else None)
  {
    AtSnoc(doc, [], a);
    AtSnoc(doc, [a], b);
    AtSnoc(doc, [a, b], c);
    assert [] + [a] == [a] && [a] + [b] == [a, b] && [a, b] + [c] == [a, b, c];
  }

  /** `_validate`: defaults first, then the checks; none if any check raises. */
  function Validate(c: Catalog, doc: Json): (r: Option<Json>)
    requires c.defaults.Obj? && doc.Obj?
    ensures r.Some? ==> r.value.Obj?
  {
    var normalized := Merge(c.defaults, doc);
    if Acceptable(c, normalized) then Some(normalized) else None
  }

  /** Validating a validated document accepts it and changes nothing. */
  lemma {:induction false} ValidateTwice(c: Catalog, doc: Json)
    requires c.defaults.Obj? && doc.Obj? && Validate(c, doc).Some?
    ensures Validate(c, Validate(c, doc).value) == Validate(c, doc)
  {
    MergeOverBaseTwice(c.defaults, doc);
  }

  /** Validation keeps the environment block as it is, unknown keys included. */
  lemma {:induction false} ValidateKeepsEnv(c: Catalog, doc: Json)
    requires c.Valid() && doc.Obj? && Validate(c, doc).Some? && EnvOf(doc).Some?
    ensures EnvOf(Validate(c, doc).value) == EnvOf(doc)
  {
    assert Merge(c.defaults, doc).m["env"] == Merge(Obj(map[]), doc.m["env"]);
    assert Merge(Obj(map[]), doc.m["env"]).m == doc.m["env"].m;
  }

  /** So the unknown keys are gone afterwards exactly if there were none. */
  lemma {:induction false} UnknownKeysStay(c: Catalog, doc: Json, known: set<string>)
    requires c.Valid() && doc.Obj? && Validate(c, doc).Some? && EnvOf(doc).Some?
    ensures EnvOf(Validate(c, doc).value).Some?
    ensures EnvOf(Validate(c, doc).value).value.Keys <= known <==> EnvOf(doc).value.Keys <= known
  {
    ValidateKeepsEnv(c, doc);
  }

  /** `int(doc.get("version", 1) or 1)`; none if the conversion raises. */
  function VersionOf(c: Catalog, doc: Json): Option<int>
    requires doc.Obj?
  {
    if "version" !in doc.m || !doc.m["version"].Truthy() then Some(1)
    else
      match doc.m["version"]
      case Bool(_) => Some(1)
      case Int(n) => Some(n)
      case Float(r) => Some(if r >= 0.0 then r.Floor else -((-r).Floor))
      case Str(s) => c.parseInt(s)
      case _ => None
  }

  function Stamped(doc: Json, version: int, now: string): Json
    requires doc.Obj?
  {
    Obj(doc.m["version" := Int(version)]["updated_at" := Str(now)])
  }

  /** `save_settings`: the stored document, none if it raises. */
  function SavedDoc(c: Catalog, doc: Json, now: string): (r: Option<Json>)
    requires c.defaults.Obj?
    ensures r.Some? ==> r.value.Obj?
  {
    if !doc.Obj? then None
    else
      match Validate(c, doc)
      case None => None
      case Some(normalized) =>
        match VersionOf(c, normalized)
        case None => None
        case Some(v) => Some(Stamped(normalized, v, now))
  }
}
