/** The laws of the settings store: saving and loading, migration, patching twice, and what a crash
    between the two file writes costs. */
module SettingsLaws {
  import opened Hashing
  import opened JsonValue
  import opened Settings

  lemma {:induction false} SecretsSurvive(c: Catalog, doc: Json)
    requires c.Valid() && doc.Obj?
    ensures ReadSecrets(c, WriteSplit(c, doc)) == Secrets(c, doc)
  {
    var s := Secrets(c, doc);
    forall k | k in s ensures IsSecretKey(k) && !c.blank(s[k]) {
      var v := EnvOf(doc).value[k];
      assert s[k] == c.render(v);
      if v.Str? { assert c.render(Str(v.s)) == v.s; }
    }
    assert ReadSecrets(c, WriteSplit(c, doc)) == s;
  }

  /** Public part and secrets, put together again, are the document with its secret slots normalised. */
  lemma {:induction false} SplitReassembles(c: Catalog, doc: Json)
    requires c.Valid() && doc.Obj?
    ensures WithSecrets(Public(doc), Secrets(c, doc)) == Normal(c, doc)
  {
    var s := Secrets(c, doc);
    match EnvOf(doc)
    case None =>
    case Some(env) =>
      var more := map k | k in s :: Str(s[k]);
      assert PublicEnv(env) + more == NormalEnv(c, env);
      assert Public(doc).m["env" := Obj(NormalEnv(c, env))] == Normal(c, doc).m;
      if s == map[] {
        assert PublicEnv(env) == NormalEnv(c, env);
      }
  }

  /** The defaults add nothing to a document that has them, if its environment block or a top-level
      value that is not a block is replaced: the default environment is empty. */
  lemma {:induction false} ReplacingEnvKeepsDefaults(c: Catalog, q: Json, env: map<string, Json>)
    requires c.Valid() && q.Obj? && Merge(c.defaults, q) == q
    ensures Merge(c.defaults, WithEnv(q, env)) == WithEnv(q, env)
  {
    var q' := WithEnv(q, env);
    forall k | k in c.defaults.m ensures k in q'.m && Merge(c.defaults, q').m[k] == q'.m[k] {
      assert Merge(c.defaults, q).m[k] == q.m[k];
      if k == "env" {
        assert Merge(Obj(map[]), Obj(env)).m == env;
      }
    }
    assert Merge(c.defaults, q').m == q'.m;
  }

  lemma {:induction false} ReplacingValueKeepsDefaults(c: Catalog, q: Json, key: string, v: Json)
    requires c.defaults.Obj? && q.Obj? && Merge(c.defaults, q) == q && !v.Obj?
    ensures Merge(c.defaults, Obj(q.m[key := v])) == Obj(q.m[key := v])
  {
    var q' := Obj(q.m[key := v]);
    forall k | k in c.defaults.m ensures k in q'.m && Merge(c.defaults, q').m[k] == q'.m[k] {
      assert Merge(c.defaults, q).m[k] == q.m[k];
    }
    assert Merge(c.defaults, q').m == q'.m;
  }

  /** The defaults add nothing to what the store writes. */
  lemma {:induction false} DefaultsAddNothing(c: Catalog, q: Json)
    requires c.Valid() && q.Obj? && Merge(c.defaults, q) == q
    ensures Merge(c.defaults, Public(q)) == Public(q)
    ensures Merge(c.defaults, Normal(c, q)) == Normal(c, q)
  {
    if EnvOf(q).Some? {
      ReplacingEnvKeepsDefaults(c, q, PublicEnv(EnvOf(q).value));
      ReplacingEnvKeepsDefaults(c, q, NormalEnv(c, EnvOf(q).value));
    }
  }

  lemma {:induction false} StampKeepsDefaults(c: Catalog, q: Json, v: int, now: string)
    requires c.defaults.Obj? && q.Obj? && Merge(c.defaults, q) == q
    ensures Merge(c.defaults, Stamped(q, v, now)) == Stamped(q, v, now)
  {
    ReplacingValueKeepsDefaults(c, q, "version", Int(v));
    ReplacingValueKeepsDefaults(c, Obj(q.m["version" := Int(v)]), "updated_at", Str(now));
  }

  /** What the store writes is never taken for a file to migrate. */
  lemma {:induction false} WrittenIsClean(c: Catalog, doc: Json)
    requires doc.Obj?
    ensures OnDisk(WriteSplit(c, doc)) == Some(Public(doc)) && !HasPlaintextSecrets(c, Public(doc))
  {
    PublicHasNoSecrets(doc);
  }

  lemma {:induction false} LoadWritten(c: Catalog, doc: Json)
    requires c.Valid() && doc.Obj? && Merge(c.defaults, doc) == doc
    ensures LoadedDoc(c, WriteSplit(c, doc)) == Normal(c, doc)
    ensures FilesAfterLoad(c, WriteSplit(c, doc)) == WriteSplit(c, doc)
  {
    WrittenIsClean(c, doc);
    SecretsSurvive(c, doc);
    SplitReassembles(c, doc);
    DefaultsAddNothing(c, doc);
  }

  /** Saving a document and loading it back gives the document merged over the defaults and stamped, with
      each secret slot normalised; and loading leaves the files alone. */
  lemma {:induction false} SaveThenLoad(c: Catalog, doc: Json, now: string)
    requires c.Valid()
    ensures SavedDoc(c, doc, now).Some? ==>
              var stored := SavedDoc(c, doc, now).value;
              && doc.Obj?
              && (exists v :: VersionOf(c, Merge(c.defaults, doc)) == Some(v) && stored == Stamped(Merge(c.defaults, doc), v, now))
              && LoadedDoc(c, WriteSplit(c, stored)) == Normal(c, stored)
              && FilesAfterLoad(c, WriteSplit(c, stored)) == WriteSplit(c, stored)
  {
    if SavedDoc(c, doc, now).None? {
      return;
    }
    var q := Merge(c.defaults, doc);
    MergeOverBaseTwice(c.defaults, doc);
    var v := VersionOf(c, q).value;
    assert SavedDoc(c, doc, now) == Some(Stamped(q, v, now));
    StampKeepsDefaults(c, q, v, now);
    LoadWritten(c, Stamped(q, v, now));
  }

  /** Which entries of the sidecar count: text that is not blank, under a key that spells a secret. */
  lemma {:induction false} SidecarEntry(c: Catalog, files: Files, k: string)
    ensures k in ReadSecrets(c, files) <==>
              && (match files.secrets case Some(Readable(Obj(m))) => k in m && m[k].Str? && !c.blank(m[k].s) case _ => false)
              && |k| >= 4 && k[|k| - 4] == '_' && (k[|k| - 3] == 'k' || k[|k| - 3] == 'K') && (k[|k| - 2] == 'e' || k[|k| - 2] == 'E') && (k[|k| - 1] == 'y' || k[|k| - 1] == 'Y')
    ensures k in ReadSecrets(c, files) ==> files.secrets.value.doc.m[k] == Str(ReadSecrets(c, files)[k])
  {
    SecretKeysAre(k);
  }

  /** One slot of the document loaded from a readable settings.json with an environment block: the sidecar's text if
      it has a counting entry, and otherwise what settings.json has there. */
  lemma {:induction false} LoadedSlot(c: Catalog, files: Files, k: string)
    requires c.Valid() && OnDisk(files).Some? && EnvOf(OnDisk(files).value).Some?
    ensures EnvOf(LoadedDoc(c, files)).Some?
    ensures var (env, loaded, secrets) := (EnvOf(OnDisk(files).value).value, EnvOf(LoadedDoc(c, files)).value, ReadSecrets(c, files));
            && (k in loaded <==> k in env || k in secrets)
            && (k in secrets ==> loaded[k] == Str(secrets[k]))
            && (k in env && k !in secrets ==> loaded[k] == env[k])
  {
    var (disk, secrets) := (OnDisk(files).value, ReadSecrets(c, files));
    assert Merge(c.defaults, disk).m["env"] == Merge(Obj(map[]), disk.m["env"]);
    assert Merge(Obj(map[]), disk.m["env"]).m == disk.m["env"].m;
    var more := map j | j in secrets :: Str(secrets[j]);
    assert secrets == map[] ==> more == map[];
  }

  /** When a load migrates: if settings.json has text that is not blank under a key that spells a secret. */
  lemma {:induction false} MigratesIff(c: Catalog, files: Files)
    requires c.Valid() && OnDisk(files).Some?
    ensures FilesAfterLoad(c, files) == files || FilesAfterLoad(c, files) == WriteSplit(c, LoadedDoc(c, files))
    ensures FilesAfterLoad(c, files) != files ==> exists k :: SecretText(c, OnDisk(files).value, k)
    ensures forall k | SecretText(c, OnDisk(files).value, k) ::
              var after := OnDisk(FilesAfterLoad(c, files)); after.Some? && EnvOf(after.value).Some? && k in EnvOf(after.value).value && EnvOf(after.value).value[k] == Null
  {
    var disk := OnDisk(files).value;
    if HasPlaintextSecrets(c, disk) {
      var k :| k in EnvOf(disk).value && IsSecretKey(k) && EnvOf(disk).value[k].Str? && !c.blank(EnvOf(disk).value[k].s);
      SecretKeysAre(k);
      assert SecretText(c, disk, k);
    }
    forall k | SecretText(c, disk, k)
      ensures var after := OnDisk(FilesAfterLoad(c, files)); after.Some? && EnvOf(after.value).Some? && k in EnvOf(after.value).value && EnvOf(after.value).value[k] == Null
    {
      SecretKeysAre(k);
      assert HasPlaintextSecrets(c, disk);
      WrittenIsClean(c, LoadedDoc(c, files));
      LoadedHasSlot(c, files, k);
      assert EnvOf(Public(LoadedDoc(c, files))) == Some(PublicEnv(EnvOf(LoadedDoc(c, files)).value));
    }
  }

  ghost predicate SecretText(c: Catalog, doc: Json, k: string)
    requires doc.Obj?
  {
    && EnvOf(doc).Some? && k in EnvOf(doc).value && EnvOf(doc).value[k].Str? && !c.blank(EnvOf(doc).value[k].s)
    && |k| >= 4 && k[|k| - 4] == '_' && (k[|k| - 3] == 'k' || k[|k| - 3] == 'K') && (k[|k| - 2] == 'e' || k[|k| - 2] == 'E') && (k[|k| - 1] == 'y' || k[|k| - 1] == 'Y')
  }

  /** The stamps of a saved document: the time given, and the version given as a number; a missing or false one
      is 1. */
  lemma {:induction false} SavedStamps(c: Catalog, doc: Json, now: string)
    requires c.Valid() && doc.Obj? && SavedDoc(c, doc, now).Some?
    ensures var stored := SavedDoc(c, doc, now).value;
            && {"version", "updated_at"} <= stored.m.Keys && stored.m["updated_at"] == Str(now) && stored.m["version"].Int?
            && match At(doc, ["version"])
               case None => stored.m["version"].n == 1
               case Some(Bool(_)) => stored.m["version"].n == 1
               case Some(Int(n)) => stored.m["version"].n == if n == 0 then 1 else n
               case Some(Float(r)) =>
                 if r == 0.0 then stored.m["version"].n == 1
                 else if r > 0.0 then stored.m["version"].n as real <= r < (stored.m["version"].n + 1) as real
                 else (stored.m["version"].n - 1) as real < r <= stored.m["version"].n as real
               case Some(Str(s)) => if s == "" then stored.m["version"].n == 1 else c.parseInt(s) == Some(stored.m["version"].n)
               case Some(v) => v in [Null, Arr([]), Obj(map[])] && stored.m["version"].n == 1
  {
    Steps(doc, "version", "", "");
    var merged := Merge(c.defaults, doc);
    assert merged.m["version"] == if "version" in doc.m then doc.m["version"] else Int(1);
    assert SavedDoc(c, doc, now) == Some(Stamped(merged, VersionOf(c, merged).value, now));
    FalseValues(merged.m["version"]);
  }

  /** A saved environment block as the two files hold it. */
  lemma {:induction false} SavedEnv(c: Catalog, doc: Json, now: string)
    requires c.Valid() && doc.Obj? && EnvOf(doc).Some? && SavedDoc(c, doc, now).Some?
    ensures var files := WriteSplit(c, SavedDoc(c, doc, now).value);
            && OnDisk(files).Some? && EnvOf(OnDisk(files).value) == Some(PublicEnv(EnvOf(doc).value))
            && files.secrets == Some(Readable(SecretsJson(SecretsOf(c, EnvOf(doc).value))))
  {
    ValidateKeepsEnv(c, doc);
    assert EnvOf(SavedDoc(c, doc, now).value) == EnvOf(doc);
  }

  /** Normalising is idempotent and invisible to the files. */
  lemma {:induction false} NormalWritesSame(c: Catalog, doc: Json)
    requires c.Valid() && doc.Obj?
    ensures WriteSplit(c, Normal(c, doc)) == WriteSplit(c, doc)
    ensures Normal(c, Normal(c, doc)) == Normal(c, doc)
  {
    match EnvOf(doc)
    case None =>
    case Some(env) =>
      var n := NormalEnv(c, env);
      forall k | k in env && IsSecretKey(k) ensures c.Unset(n[k]) <==> c.Unset(env[k]) {
        if env[k].Str? { assert c.render(Str(env[k].s)) == env[k].s; }
      }
      forall k | k in env && IsSecretKey(k) && !c.Unset(env[k]) ensures c.render(n[k]) == c.render(env[k]) {
        assert n[k] == Str(c.render(env[k]));
      }
      assert PublicEnv(n) == PublicEnv(env);
      assert SecretsOf(c, n) == SecretsOf(c, env);
      assert NormalEnv(c, n) == n;
      assert Normal(c, doc).m["env" := Obj(PublicEnv(env))] == Public(doc).m;
      assert Normal(c, doc).m["env" := Obj(n)] == Normal(c, doc).m;
  }

  /** Migration: after one load the test for plaintext secrets, which looks for text only, finds none, and every
      later load gives the first one's document with its secret slots normalised and changes nothing more. */
  lemma {:induction false} MigrationSettles(c: Catalog, files: Files)
    requires c.Valid()
    ensures var (doc, after) := (LoadedDoc(c, files), FilesAfterLoad(c, files));
            && (OnDisk(after).Some? ==> !HasPlaintextSecrets(c, OnDisk(after).value))
            && LoadedDoc(c, after) == (if after == files then doc else Normal(c, doc))
            && FilesAfterLoad(c, after) == after
  {
    if OnDisk(files).Some? && HasPlaintextSecrets(c, OnDisk(files).value) {
      var disk := OnDisk(files).value;
      var q := Merge(c.defaults, disk);
      var secrets := ReadSecrets(c, files);
      MergeOverBaseTwice(c.defaults, disk);
      SecretsKeepDefaultsAbsorbed(c, q, secrets);
      var doc := LoadedDoc(c, files);
      LoadWritten(c, doc);
      WrittenIsClean(c, doc);
    }
  }

  /** Every secret slot is empty: null or blank text. */
  predicate SlotsUnset(c: Catalog, doc: Json)
    requires doc.Obj?
  {
    var env := EnvOf(doc);
    env.Some? ==> forall k | k in env.value && IsSecretKey(k) :: c.Unset(env.value[k])
  }

  /** When a load leaves no secret in settings.json: exactly if the test for plaintext secrets fired, or there was
      none to begin with.  A secret that is a number, a list or an object does not make it fire. */
  lemma {:induction false} LoadClearsSecretsIff(c: Catalog, files: Files)
    requires c.Valid() && OnDisk(files).Some?
    ensures var (disk, after) := (OnDisk(files).value, OnDisk(FilesAfterLoad(c, files)));
            && after.Some?
            && (SlotsUnset(c, after.value) <==> HasPlaintextSecrets(c, disk) || SlotsUnset(c, disk))
  {
    if HasPlaintextSecrets(c, OnDisk(files).value) {
      WrittenIsClean(c, LoadedDoc(c, files));
      PublicHasNoSecrets(LoadedDoc(c, files));
    }
  }

  lemma {:induction false} IsSecretSlot()
    ensures IsSecretKey("X_API_KEY")
  {
    assert forall i | 0 <= i < 8 :: Upper("X_API_KEY"[1 + i]) == "_API_KEY"[i];
  }

  /** An input on which a secret stays: settings.json with the number 42 for a key.  The load changes no file, and
      yet 42 is a secret to everyone who gets the document. */
  lemma {:induction false} NumberStaysOnDisk(c: Catalog)
    requires c.Valid()
    ensures var disk := Obj(map["env" := Obj(map["X_API_KEY" := Int(42)])]);
            var files := Files(Some(Readable(disk)), None);
            && FilesAfterLoad(c, files) == files && !SlotsUnset(c, disk)
            && "X_API_KEY" in Secrets(c, LoadedDoc(c, files)) && Secrets(c, LoadedDoc(c, files))["X_API_KEY"] == c.render(Int(42))
  {
    IsSecretSlot();
    var env := map["X_API_KEY" := Int(42)];
    var disk := Obj(map["env" := Obj(env)]);
    var files := Files(Some(Readable(disk)), None);
    assert EnvOf(disk) == Some(env) && "X_API_KEY" in env;
    assert !HasPlaintextSecrets(c, disk);
    assert Merge(c.defaults, disk).m["env"] == Merge(Obj(map[]), Obj(env));
    assert Merge(Obj(map[]), Obj(env)).m == env;
    assert EnvOf(LoadedDoc(c, files)) == Some(env);
  }

  /** A migration that stops between its two writes: a plaintext secret is kept exactly if the sidecar had it, with
      the sidecar's value; otherwise its slot is empty and the value gone. */
  lemma {:induction false} InterruptedMigrationKeepsSecretIff(c: Catalog, files: Files, k: string)
    requires c.Valid() && OnDisk(files).Some? && HasPlaintextSecrets(c, OnDisk(files).value)
    requires EnvOf(OnDisk(files).value).Some? && k in EnvOf(OnDisk(files).value).value && IsSecretKey(k)
    ensures var halfway := files.(settings := FilesAfterLoad(c, files).settings);
            var env := EnvOf(LoadedDoc(c, halfway));
            && env.Some? && k in env.value
            && (env.value[k] != Null <==> k in ReadSecrets(c, files))
            && (k in ReadSecrets(c, files) ==> env.value[k] == Str(ReadSecrets(c, files)[k]))
  {
    var (disk, loaded) := (OnDisk(files).value, LoadedDoc(c, files));
    LoadedAbsorbsDefaults(c, files);
    LoadedHasSlot(c, files, k);
    InterruptedSaveKeepsOldSecrets(c, files, loaded, k);
    var halfway := files.(settings := WriteSplit(c, loaded).settings);
    SlotIsKept(c, halfway, loaded, k);
  }

  lemma {:induction false} LoadedHasSlot(c: Catalog, files: Files, k: string)
    requires c.Valid() && OnDisk(files).Some?
    requires EnvOf(OnDisk(files).value).Some? && k in EnvOf(OnDisk(files).value).value
    ensures EnvOf(LoadedDoc(c, files)).Some? && k in EnvOf(LoadedDoc(c, files)).value
  {
    var env := EnvOf(OnDisk(files).value).value;
    assert Merge(c.defaults, OnDisk(files).value).m["env"] == Merge(Obj(map[]), Obj(env));
    assert Merge(Obj(map[]), Obj(env)).m == env;
  }

  /** A slot of the written document is a slot of the loaded one. */
  lemma {:induction false} SlotIsKept(c: Catalog, halfway: Files, stored: Json, k: string)
    requires c.Valid() && stored.Obj? && EnvOf(stored).Some? && k in EnvOf(stored).value
    requires halfway.settings == WriteSplit(c, stored).settings
    ensures EnvOf(LoadedDoc(c, halfway)).Some? && k in EnvOf(LoadedDoc(c, halfway)).value
  {
    assert OnDisk(halfway) == Some(Public(stored));
    assert EnvOf(Public(stored)) == Some(PublicEnv(EnvOf(stored).value));
    LoadedHasSlot(c, halfway, k);
  }

  lemma {:induction false} SecretsKeepDefaultsAbsorbed(c: Catalog, q: Json, secrets: map<string, string>)
    requires c.Valid() && q.Obj? && Merge(c.defaults, q) == q
    ensures Merge(c.defaults, WithSecrets(q, secrets)) == WithSecrets(q, secrets)
  {
    var env := match EnvOf(q) { case None => map[] case Some(env) => env };
    if secrets != map[] {
      ReplacingEnvKeepsDefaults(c, q, env + map k | k in secrets :: Str(secrets[k]));
    }
  }

  lemma {:induction false} LoadedAbsorbsDefaults(c: Catalog, files: Files)
    requires c.Valid()
    ensures Merge(c.defaults, LoadedDoc(c, files)) == LoadedDoc(c, files)
  {
    match OnDisk(files)
    case None => MergeSelf(c.defaults);
    case Some(disk) =>
      MergeOverBaseTwice(c.defaults, disk);
      SecretsKeepDefaultsAbsorbed(c, Merge(c.defaults, disk), ReadSecrets(c, files));
  }

  /** The two files are written one after the other.  A crash in between leaves the new public part with
      the old secrets: a changed secret is back to its old value, a removed one is back, a new one gone. */
  lemma {:induction false} InterruptedSaveKeepsOldSecrets(c: Catalog, files: Files, stored: Json, k: string)
    requires c.Valid() && stored.Obj? && Merge(c.defaults, stored) == stored
    requires EnvOf(stored).Some? && IsSecretKey(k)
    ensures var halfway := files.(settings := WriteSplit(c, stored).settings);
            var env := EnvOf(LoadedDoc(c, halfway));
            && env.Some?
            && (k in ReadSecrets(c, files) ==> k in env.value && env.value[k] == Str(ReadSecrets(c, files)[k]))
            && (k !in ReadSecrets(c, files) && k in env.value ==> env.value[k] == Null)
  {
    var halfway := files.(settings := WriteSplit(c, stored).settings);
    var secrets := ReadSecrets(c, files);
    DefaultsAddNothing(c, stored);
    assert ReadSecrets(c, halfway) == secrets;
    assert LoadedDoc(c, halfway) == WithSecrets(Public(stored), secrets);
    SecretsOverPublic(stored, secrets, k);
  }

  lemma {:induction false} SecretsOverPublic(stored: Json, secrets: map<string, string>, k: string)
    requires stored.Obj? && EnvOf(stored).Some? && IsSecretKey(k)
    ensures var env := EnvOf(WithSecrets(Public(stored), secrets));
            && env.Some?
            && (k in secrets ==> k in env.value && env.value[k] == Str(secrets[k]))
            && (k !in secrets && k in env.value ==> env.value[k] == Null)
  {
    assert EnvOf(Public(stored)) == Some(PublicEnv(EnvOf(stored).value));
    if secrets != map[] {
      assert EnvOf(WithSecrets(Public(stored), secrets)) == Some(PublicEnv(EnvOf(stored).value) + map j | j in secrets :: Str(secrets[j]));
    }
  }

  /* ---------------------------------------------------------------- the same patch twice */

  /** `update_settings` from a loaded document: the stored document. */
  function UpdatedDoc(c: Catalog, loaded: Json, patch: Json, now: string): Option<Json>
    requires c.defaults.Obj? && loaded.Obj?
  {
    if !patch.Obj? then None else SavedDoc(c, Merge(loaded, patch), now)
  }

  /** The patch leaves that environment key alone. */
  predicate Spares(patch: Json, k: string)
    requires patch.Obj?
  {
    "env" in patch.m ==> patch.m["env"].Obj? && k !in patch.m["env"].m
  }

  /** A secret of the sidecar that an accepted patch leaves alone survives it if and only if settings.json holds a
      readable object.  Patching over a missing or unreadable file wipes it. */
  lemma {:induction false} SecretSurvivesUpdateIff(c: Catalog, files: Files, patch: Json, now: string, k: string)
    requires c.Valid() && patch.Obj? && Spares(patch, k) && k in ReadSecrets(c, files)
    requires UpdatedDoc(c, LoadedDoc(c, files), patch, now).Some?
    ensures var after := ReadSecrets(c, WriteSplit(c, UpdatedDoc(c, LoadedDoc(c, files), patch, now).value));
            && (k in after <==> OnDisk(files).Some?)
            && (k in after ==> after[k] == ReadSecrets(c, files)[k])
  {
    var loaded := LoadedDoc(c, files);
    LoadedAbsorbsDefaults(c, files);
    SavedIs(c, loaded, patch, now);
    FirstPatch(c, loaded, patch);
    var doc := Merge(c.defaults, Merge(loaded, patch));
    var stored := UpdatedDoc(c, loaded, patch, now).value;
    SecretsSurvive(c, stored);
    assert EnvOf(stored) == EnvOf(doc);
    SparedSlot(c, loaded, patch, doc, k);
    if OnDisk(files).Some? {
      SidecarSlot(c, files, k);
      assert c.render(Str(ReadSecrets(c, files)[k])) == ReadSecrets(c, files)[k];
    } else {
      assert EnvOf(loaded) == Some(map[]);
    }
  }

  lemma {:induction false} SidecarSlot(c: Catalog, files: Files, k: string)
    requires c.Valid() && OnDisk(files).Some? && k in ReadSecrets(c, files)
    ensures EnvOf(LoadedDoc(c, files)).Some? && k in EnvOf(LoadedDoc(c, files)).value
    ensures EnvOf(LoadedDoc(c, files)).value[k] == Str(ReadSecrets(c, files)[k])
  {
    var secrets := ReadSecrets(c, files);
    var more := map j | j in secrets :: Str(secrets[j]);
    assert k in more;
  }

  lemma {:induction false} SparedSlot(c: Catalog, loaded: Json, patch: Json, doc: Json, k: string)
    requires loaded.Obj? && patch.Obj? && doc.Obj? && "env" in loaded.m && "env" in doc.m && Spares(patch, k)
    requires doc.m["env"] == Laid(loaded.m["env"], patch, "env")
    requires EnvOf(loaded).Some?
    ensures EnvOf(doc).Some? && (k in EnvOf(doc).value <==> k in EnvOf(loaded).value)
    ensures k in EnvOf(loaded).value ==> EnvOf(doc).value[k] == EnvOf(loaded).value[k]
  {
  }

  /** Saving a masked document back makes the mask the secret: every set slot is stored as the text "set". */
  lemma {:induction false} MaskedSaveStoresMask(c: Catalog, doc: Json, now: string)
    requires c.Valid() && !c.blank("set") && doc.Obj? && EnvOf(doc).Some? && SavedDoc(c, Masked(c, doc), now).Some?
    ensures var (env, after) := (EnvOf(doc).value, ReadSecrets(c, WriteSplit(c, SavedDoc(c, Masked(c, doc), now).value)));
            && (forall k | k in env && IsSecretKey(k) && !c.Unset(env[k]) :: k in after && after[k] == "set")
            && forall k | k in after :: after[k] == "set"
  {
    var (masked, env) := (Masked(c, doc), EnvOf(doc).value);
    var stored := SavedDoc(c, masked, now).value;
    assert EnvOf(masked) == Some(MaskedEnv(c, env));
    ValidateKeepsEnv(c, masked);
    assert EnvOf(stored) == EnvOf(masked);
    SecretsSurvive(c, stored);
    assert c.render(Str("set")) == "set";
  }

  /** The patch sets the version itself, or the version it keeps is not one that converts to 0. */
  predicate VersionSettles(c: Catalog, loaded: Json, patch: Json)
    requires loaded.Obj? && patch.Obj?
  {
    "version" in patch.m || VersionOf(c, loaded) != Some(0)
  }

  /** No secret slot is patched with an object on top of a different one. */
  predicate SecretsSettle(c: Catalog, loaded: Json, patch: Json)
    requires loaded.Obj? && patch.Obj?
  {
    EnvOf(loaded).Some? && EnvOf(patch).Some? ==>
      forall k | k in EnvOf(patch).value && IsSecretKey(k) && k in EnvOf(loaded).value ::
        var (was, patched) := (EnvOf(loaded).value[k], EnvOf(patch).value[k]);
        was.Obj? && patched.Obj? ==> c.render(Merge(was, patched)) == c.render(patched)
  }

  /** Equal but for the time stamp. */
  predicate SameFiles(a: Files, b: Files) {
    && a.secrets == b.secrets
    && OnDisk(a).Some? && OnDisk(b).Some?
    && OnDisk(a).value.m["updated_at" := Null] == OnDisk(b).value.m["updated_at" := Null]
  }

  /** A value once a patch is laid over it. */
  function Laid(was: Json, patch: Json, key: string): Json
    requires patch.Obj?
  {
    if key !in patch.m then was
    else if was.Obj? && patch.m[key].Obj? then Merge(was, patch.m[key])
    else patch.m[key]
  }

  /** The first time round. */
  lemma {:induction false} FirstPatch(c: Catalog, loaded: Json, patch: Json)
    requires c.Valid() && loaded.Obj? && patch.Obj? && Merge(c.defaults, loaded) == loaded
    ensures var doc := Merge(c.defaults, Merge(loaded, patch));
            && Merge(doc, patch) == doc && Merge(c.defaults, doc) == doc
            && {"env", "version", "updated_at"} <= doc.m.Keys && {"env", "version", "updated_at"} <= loaded.m.Keys
            && doc.m["version"] == Laid(loaded.m["version"], patch, "version")
            && doc.m["env"] == Laid(loaded.m["env"], patch, "env")
  {
    var q := Merge(loaded, patch);
    PatchTwice(loaded, patch);
    PatchUnderBase(c.defaults, q, patch);
    MergeOverBaseTwice(c.defaults, q);
    assert Merge(c.defaults, loaded).m.Keys == c.defaults.m.Keys + loaded.m.Keys;
    if q.m["env"].Obj? {
      assert Merge(Obj(map[]), q.m["env"]).m == q.m["env"].m;
    }
  }

  /** The environment block the second time round. */
  function SecondEnv(c: Catalog, env: map<string, Json>, patch: Json): map<string, Json>
    requires patch.Obj?
  {
    if "env" in patch.m && patch.m["env"].Obj? then Merge(Obj(NormalEnv(c, env)), patch.m["env"]).m else NormalEnv(c, env)
  }

  /** The document that is saved the second time, compared with the first, `doc`. */
  lemma {:induction false} SecondPatch(c: Catalog, doc: Json, patch: Json, v: int, now: string)
    requires c.Valid() && doc.Obj? && patch.Obj? && {"env", "version", "updated_at"} <= doc.m.Keys
    requires Merge(doc, patch) == doc && Merge(c.defaults, doc) == doc
    ensures var again := Merge(c.defaults, Merge(Normal(c, Stamped(doc, v, now)), patch));
            && again.m.Keys == doc.m.Keys
            && (forall k | k in doc.m && k !in {"env", "version", "updated_at"} :: again.m[k] == doc.m[k])
            && again.m["version"] == (if "version" in patch.m then patch.m["version"] else Int(v))
            && again.m["env"] == (if doc.m["env"].Obj? then Obj(SecondEnv(c, doc.m["env"].m, patch)) else doc.m["env"])
  {
    var loaded := Normal(c, Stamped(doc, v, now));
    assert patch.m.Keys <= doc.m.Keys by { assert Merge(doc, patch).m.Keys == doc.m.Keys + patch.m.Keys; }
    assert c.defaults.m.Keys <= doc.m.Keys by { assert Merge(c.defaults, doc).m.Keys == doc.m.Keys + c.defaults.m.Keys; }
    assert loaded.m.Keys == doc.m.Keys;
    forall k | k in doc.m && k !in {"env", "version", "updated_at"}
      ensures Merge(c.defaults, Merge(loaded, patch)).m[k] == doc.m[k]
    {
      assert loaded.m[k] == doc.m[k];
      SameEntry(c.defaults, doc, loaded, patch, k);
    }
    SecondEnvBlock(c, doc, loaded, patch);
  }

  lemma {:induction false} SameEntry(base: Json, doc: Json, loaded: Json, patch: Json, k: string)
    requires base.Obj? && doc.Obj? && loaded.Obj? && patch.Obj? && k in doc.m && k in loaded.m && loaded.m[k] == doc.m[k]
    requires Merge(doc, patch) == doc && Merge(base, doc) == doc
    ensures Merge(base, Merge(loaded, patch)).m[k] == doc.m[k]
  {
    assert Merge(doc, patch).m[k] == doc.m[k];
    assert Merge(base, doc).m[k] == doc.m[k];
    assert Merge(loaded, patch).m[k] == doc.m[k];
  }

  lemma {:induction false} SecondEnvBlock(c: Catalog, doc: Json, loaded: Json, patch: Json)
    requires c.Valid() && doc.Obj? && loaded.Obj? && patch.Obj? && "env" in doc.m && "env" in loaded.m
    requires Merge(doc, patch) == doc
    requires loaded.m["env"] == if doc.m["env"].Obj? then Obj(NormalEnv(c, doc.m["env"].m)) else doc.m["env"]
    ensures Merge(c.defaults, Merge(loaded, patch)).m["env"] ==
            if doc.m["env"].Obj? then Obj(SecondEnv(c, doc.m["env"].m, patch)) else doc.m["env"]
  {
    assert Merge(doc, patch).m["env"] == doc.m["env"];
    var q := Merge(loaded, patch);
    assert q.m["env"] == if doc.m["env"].Obj? then Obj(SecondEnv(c, doc.m["env"].m, patch)) else doc.m["env"];
    if q.m["env"].Obj? {
      assert Merge(Obj(map[]), q.m["env"]).m == q.m["env"].m;
    }
  }

  /** Entry by entry, the second environment block is the first one with its secrets normalised, except
      that patched secrets are as in the patch. */
  lemma {:induction false} SecondEnvEntries(c: Catalog, env: map<string, Json>, patch: Json)
    requires patch.Obj? && ("env" in patch.m && patch.m["env"].Obj? ==> Merge(Obj(env), patch.m["env"]) == Obj(env))
    ensures var again := SecondEnv(c, env, patch);
            && again.Keys == env.Keys
            && (forall k | k in env && !IsSecretKey(k) :: again[k] == env[k])
            && (forall k | k in env && IsSecretKey(k) ::
                  again[k] == if "env" in patch.m && patch.m["env"].Obj? && k in patch.m["env"].m then patch.m["env"].m[k] else NormalEnv(c, env)[k])
  {
    if "env" in patch.m && patch.m["env"].Obj? {
      var p := patch.m["env"];
      assert Merge(Obj(env), p).m.Keys == env.Keys + p.m.Keys;
      forall k | k in env ensures Merge(Obj(env), p).m[k] == env[k] {}
    }
  }

  /** What a slot contributes to the secret file. */
  function Slot(c: Catalog, v: Json): Option<string> {
    if c.Unset(v) then None else Some(c.render(v))
  }

  lemma {:induction false} SecretsEqualIff(c: Catalog, a: map<string, Json>, b: map<string, Json>)
    requires a.Keys == b.Keys
    ensures SecretsOf(c, a) == SecretsOf(c, b) <==> forall k | k in a && IsSecretKey(k) :: Slot(c, a[k]) == Slot(c, b[k])
  {
    var (x, y) := (SecretsOf(c, a), SecretsOf(c, b));
    forall k | k in a && IsSecretKey(k)
      ensures Slot(c, a[k]) == if k in x then Some(x[k]) else None
      ensures Slot(c, b[k]) == if k in y then Some(y[k]) else None
    {}
    if forall k | k in a && IsSecretKey(k) :: Slot(c, a[k]) == Slot(c, b[k]) {
      assert forall k :: k in x <==> k in y;
      assert x == y;
    }
  }

  lemma {:induction false} SlotOfNormal(c: Catalog, v: Json)
    requires c.Valid()
    ensures Slot(c, if c.Unset(v) then Null else Str(c.render(v))) == Slot(c, v)
  {
    if v.Str? { assert c.render(Str(v.s)) == v.s; }
    if !c.Unset(v) { assert c.render(Str(c.render(v))) == c.render(v); }
  }

  /** One secret slot: the second round contributes what the first did, unless an object was patched over
      an object and the two print differently. */
  lemma {:induction false} SlotAgain(c: Catalog, loadedEnv: Json, env: map<string, Json>, patch: Json, k: string)
    requires c.Valid() && patch.Obj? && Laid(loadedEnv, patch, "env") == Obj(env)
    requires "env" in patch.m && patch.m["env"].Obj? ==> Merge(Obj(env), patch.m["env"]) == Obj(env)
    requires k in env && IsSecretKey(k) && k in SecondEnv(c, env, patch)
    ensures Slot(c, SecondEnv(c, env, patch)[k]) == Slot(c, env[k]) <==>
            (loadedEnv.Obj? && "env" in patch.m && patch.m["env"].Obj? && k in patch.m["env"].m && k in loadedEnv.m &&
             loadedEnv.m[k].Obj? && patch.m["env"].m[k].Obj? ==>
               c.render(Merge(loadedEnv.m[k], patch.m["env"].m[k])) == c.render(patch.m["env"].m[k]))
  {
    SecondEnvEntries(c, env, patch);
    SlotOfNormal(c, env[k]);
  }

  /** The secrets written the second time are those written the first exactly when the patch settles. */
  lemma {:induction false} SecretsAgain(c: Catalog, loadedEnv: Json, env: map<string, Json>, patch: Json)
    requires c.Valid() && patch.Obj? && Laid(loadedEnv, patch, "env") == Obj(env)
    requires "env" in patch.m && patch.m["env"].Obj? ==> Merge(Obj(env), patch.m["env"]) == Obj(env)
    ensures PublicEnv(SecondEnv(c, env, patch)) == PublicEnv(env)
    ensures SecretsOf(c, SecondEnv(c, env, patch)) == SecretsOf(c, env) <==>
            (loadedEnv.Obj? && "env" in patch.m && patch.m["env"].Obj? ==>
               forall k | k in patch.m["env"].m && IsSecretKey(k) && k in loadedEnv.m ::
                 var (was, patched) := (loadedEnv.m[k], patch.m["env"].m[k]);
                 was.Obj? && patched.Obj? ==> c.render(Merge(was, patched)) == c.render(patched))
  {
    var again := SecondEnv(c, env, patch);
    SecondEnvEntries(c, env, patch);
    SecretsEqualIff(c, again, env);
    forall k | k in env && IsSecretKey(k)
      ensures Slot(c, again[k]) == Slot(c, env[k]) <==>
              (loadedEnv.Obj? && "env" in patch.m && patch.m["env"].Obj? && k in patch.m["env"].m && k in loadedEnv.m &&
               loadedEnv.m[k].Obj? && patch.m["env"].m[k].Obj? ==>
                 c.render(Merge(loadedEnv.m[k], patch.m["env"].m[k])) == c.render(patch.m["env"].m[k]))
    {
      SlotAgain(c, loadedEnv, env, patch, k);
    }
  }

  /** The version written the second time is the first one's unless that converted to 0 and is kept. */
  lemma {:induction false} VersionAgain(c: Catalog, loaded: Json, patch: Json, doc: Json, again: Json)
    requires loaded.Obj? && patch.Obj? && doc.Obj? && again.Obj?
    requires {"version"} <= loaded.m.Keys && {"version"} <= doc.m.Keys && {"version"} <= again.m.Keys
    requires doc.m["version"] == Laid(loaded.m["version"], patch, "version") && VersionOf(c, doc).Some?
    requires again.m["version"] == if "version" in patch.m then patch.m["version"] else Int(VersionOf(c, doc).value)
    ensures VersionOf(c, again).Some?
    ensures VersionOf(c, again) == VersionOf(c, doc) <==> VersionSettles(c, loaded, patch)
  {
    if "version" in patch.m && loaded.m["version"].Obj? && patch.m["version"].Obj? {
      assert !doc.m["version"].Truthy();
      assert doc.m["version"].m.Keys == loaded.m["version"].m.Keys + patch.m["version"].m.Keys;
    }
  }

  lemma {:induction false} NotSecret()
    ensures !IsSecretKey("LLM_MODE") && !IsSecretKey("LLM_PROVIDER")
  {
    assert "LLM_MODE"[|"LLM_MODE"| - 1] == 'E' && "LLM_PROVIDER"[|"LLM_PROVIDER"| - 1] == 'R';
    assert "_KEY"[3] == 'Y' && "_API_KEY"[7] == 'Y';
    assert "LLM_MODE"[|"LLM_MODE"| - 4 + 3] == 'E' && "LLM_PROVIDER"[|"LLM_PROVIDER"| - 4 + 3] == 'R';
    assert "LLM_MODE"[|"LLM_MODE"| - 8 + 7] == 'E' && "LLM_PROVIDER"[|"LLM_PROVIDER"| - 8 + 7] == 'R';
  }

  /** A document that agrees outside the stamps and the secrets is as acceptable. */
  lemma {:induction false} AcceptableAgain(c: Catalog, doc: Json, again: Json)
    requires doc.Obj? && again.Obj? && again.m.Keys == doc.m.Keys && Acceptable(c, doc)
    requires forall k | k in doc.m && k !in {"env", "version", "updated_at"} :: again.m[k] == doc.m[k]
    requires EnvOf(again).Some? ==> EnvOf(doc).Some? && EnvOf(again).value.Keys == EnvOf(doc).value.Keys
    requires EnvOf(again).Some? ==> forall k | k in EnvOf(doc).value && !IsSecretKey(k) :: EnvOf(again).value[k] == EnvOf(doc).value[k]
    ensures Acceptable(c, again)
  {
    NotSecret();
  }

  lemma {:induction false} SavedIs(c: Catalog, loaded: Json, patch: Json, now: string)
    requires c.defaults.Obj? && loaded.Obj? && patch.Obj?
    ensures var doc := Merge(c.defaults, Merge(loaded, patch));
            UpdatedDoc(c, loaded, patch, now) ==
            if Acceptable(c, doc) && VersionOf(c, doc).Some? then Some(Stamped(doc, VersionOf(c, doc).value, now)) else None
  {
  }

  /** The stamps apart, the files depend on the document alone. */
  lemma {:induction false} StampedFiles(c: Catalog, doc: Json, v: int, now: string)
    requires doc.Obj?
    ensures Secrets(c, Stamped(doc, v, now)) == Secrets(c, doc)
    ensures Public(Stamped(doc, v, now)).m["updated_at" := Null] == Public(doc).m["version" := Int(v)]["updated_at" := Null]
  {
    assert EnvOf(Stamped(doc, v, now)) == EnvOf(doc);
  }

  /** The comparison of the two saves, once the two documents are known. */
  lemma {:induction false} SecondSave(c: Catalog, doc: Json, again: Json, v: int, w: int, now: string, later: string)
    requires doc.Obj? && again.Obj?
    requires Public(doc).m["version" := Null]["updated_at" := Null] == Public(again).m["version" := Null]["updated_at" := Null]
    ensures SameFiles(WriteSplit(c, Stamped(doc, v, now)), WriteSplit(c, Stamped(again, w, later))) <==> v == w && Secrets(c, doc) == Secrets(c, again)
  {
    StampedFiles(c, doc, v, now);
    StampedFiles(c, again, w, later);
    StampsCompare(Public(doc).m, Public(again).m, v, w);
    SecretsJsonInjective(Secrets(c, doc), Secrets(c, again));
  }

  lemma {:induction false} SecretsJsonInjective(s: map<string, string>, t: map<string, string>)
    ensures SecretsJson(s) == SecretsJson(t) <==> s == t
  {
    if SecretsJson(s) == SecretsJson(t) {
      assert s.Keys == SecretsJson(s).m.Keys && t.Keys == SecretsJson(t).m.Keys;
      forall k | k in s ensures s[k] == t[k] {
        assert SecretsJson(s).m[k] == Str(s[k]);
      }
    }
  }

  lemma {:induction false} StampsCompare(p: map<string, Json>, q: map<string, Json>, v: int, w: int)
    requires p["version" := Null]["updated_at" := Null] == q["version" := Null]["updated_at" := Null]
    ensures p["version" := Int(v)]["updated_at" := Null] == q["version" := Int(w)]["updated_at" := Null] <==> v == w
  {
    var (x, y) := (p["version" := Int(v)]["updated_at" := Null], q["version" := Int(w)]["updated_at" := Null]);
    assert x["version"] == Int(v) && y["version"] == Int(w);
    if v == w {
      forall k | k in x && k != "version" && k != "updated_at" ensures k in y && x[k] == y[k] {
        assert p["version" := Null]["updated_at" := Null][k] == x[k];
      }
      forall k | k in y && k != "version" && k != "updated_at" ensures k in x {
        assert k in q["version" := Null]["updated_at" := Null];
      }
    }
  }

  /** What the second document has in common with the first. */
  lemma {:induction false} SecondDoc(c: Catalog, loaded: Json, patch: Json, doc: Json, again: Json)
    requires c.Valid() && loaded.Obj? && patch.Obj? && doc.Obj? && again.Obj?
    requires {"env", "version", "updated_at"} <= doc.m.Keys && again.m.Keys == doc.m.Keys && "env" in loaded.m
    requires Merge(doc, patch) == doc && doc.m["env"] == Laid(loaded.m["env"], patch, "env")
    requires forall k | k in doc.m && k !in {"env", "version", "updated_at"} :: again.m[k] == doc.m[k]
    requires again.m["env"] == if doc.m["env"].Obj? then Obj(SecondEnv(c, doc.m["env"].m, patch)) else doc.m["env"]
    ensures EnvOf(again).Some? <==> EnvOf(doc).Some?
    ensures EnvOf(doc).Some? ==> EnvOf(again).value.Keys == EnvOf(doc).value.Keys
    ensures EnvOf(doc).Some? ==> forall k | k in EnvOf(doc).value && !IsSecretKey(k) :: EnvOf(again).value[k] == EnvOf(doc).value[k]
    ensures Public(doc).m["version" := Null]["updated_at" := Null] == Public(again).m["version" := Null]["updated_at" := Null]
    ensures Secrets(c, doc) == Secrets(c, again) <==> SecretsSettle(c, loaded, patch)
  {
    if doc.m["env"].Obj? {
      var env := doc.m["env"].m;
      if "env" in patch.m && patch.m["env"].Obj? {
        assert Merge(doc, patch).m["env"] == doc.m["env"];
      }
      SecondEnvEntries(c, env, patch);
      SecretsAgain(c, loaded.m["env"], env, patch);
      assert Public(again).m["env"] == Public(doc).m["env"];
    }
  }

  /** Applying the same patch twice: the second save is accepted whenever the first is, and it stores the
      same two files, time stamp aside, if and only if the version settles and the secrets settle.

      It fails for a version that is truthy but converts to 0, such as "0" or 0.5: the first save writes
      0, the second takes 0 for absent and writes 1. */
  lemma {:induction false} PatchTwiceStoresSame(c: Catalog, files: Files, patch: Json, now: string, later: string)
    requires c.Valid() && patch.Obj?
    requires UpdatedDoc(c, LoadedDoc(c, files), patch, now).Some?
    ensures var loaded := LoadedDoc(c, files);
            var once := WriteSplit(c, UpdatedDoc(c, loaded, patch, now).value);
            var second := UpdatedDoc(c, LoadedDoc(c, once), patch, later);
            && second.Some?
            && (SameFiles(once, WriteSplit(c, second.value)) <==> VersionSettles(c, loaded, patch) && SecretsSettle(c, loaded, patch))
  {
    var loaded := LoadedDoc(c, files);
    LoadedAbsorbsDefaults(c, files);
    var doc := Merge(c.defaults, Merge(loaded, patch));
    SavedIs(c, loaded, patch, now);
    var v := VersionOf(c, doc).value;
    var stored := Stamped(doc, v, now);
    FirstPatch(c, loaded, patch);
    StampKeepsDefaults(c, doc, v, now);
    LoadWritten(c, stored);
    SavedIs(c, Normal(c, stored), patch, later);
    SecondPatch(c, doc, patch, v, now);
    var again := Merge(c.defaults, Merge(Normal(c, stored), patch));
    VersionAgain(c, loaded, patch, doc, again);
    SecondDoc(c, loaded, patch, doc, again);
    AcceptableAgain(c, doc, again);
    SecondSave(c, doc, again, v, VersionOf(c, again).value, now, later);
  }

  /** The input on which it fails: the default settings with the version "0", and the empty patch. */
  lemma {:induction false} ZeroVersionDrifts(c: Catalog, now: string, later: string)
    requires c.Valid() && c.parseInt("0") == Some(0) && Acceptable(c, c.defaults)
    ensures var files := Files(Some(Readable(Obj(c.defaults.m["version" := Str("0")]))), None);
            var patch := Obj(map[]);
            && UpdatedDoc(c, LoadedDoc(c, files), patch, now).Some?
            && (var once := WriteSplit(c, UpdatedDoc(c, LoadedDoc(c, files), patch, now).value);
                var second := UpdatedDoc(c, LoadedDoc(c, once), patch, later);
                second.Some? && !SameFiles(once, WriteSplit(c, second.value)))
  {
    var disk := Obj(c.defaults.m["version" := Str("0")]);
    ZeroVersionSaves(c, disk, now);
    PatchTwiceStoresSame(c, Files(Some(Readable(disk)), None), Obj(map[]), now, later);
  }

  lemma {:induction false} ZeroVersionSaves(c: Catalog, disk: Json, now: string)
    requires c.Valid() && c.parseInt("0") == Some(0) && Acceptable(c, c.defaults)
    requires disk == Obj(c.defaults.m["version" := Str("0")])
    ensures LoadedDoc(c, Files(Some(Readable(disk)), None)) == disk
    ensures UpdatedDoc(c, disk, Obj(map[]), now).Some? && !VersionSettles(c, disk, Obj(map[]))
  {
    assert Merge(c.defaults, disk) == disk by {
      MergeSelf(c.defaults);
      ReplacingValueKeepsDefaults(c, c.defaults, "version", Str("0"));
    }
    LoadWithoutSecrets(c, disk);
    EmptyPatch(disk);
    VersionIsNotChecked(c, c.defaults, Str("0"));
    VersionIsZero(c, disk);
    SavedIs(c, disk, Obj(map[]), now);
  }

  lemma {:induction false} VersionIsZero(c: Catalog, doc: Json)
    requires doc.Obj? && "version" in doc.m && doc.m["version"] == Str("0") && c.parseInt("0") == Some(0)
    ensures VersionOf(c, doc) == Some(0)
  {
  }

  lemma {:induction false} VersionIsNotChecked(c: Catalog, doc: Json, v: Json)
    requires doc.Obj? && "version" in doc.m && Acceptable(c, doc)
    ensures Acceptable(c, Obj(doc.m["version" := v]))
  {
    AcceptableAgain(c, doc, Obj(doc.m["version" := v]));
  }

  lemma {:induction false} LoadWithoutSecrets(c: Catalog, disk: Json)
    requires c.defaults.Obj? && disk.Obj? && Merge(c.defaults, disk) == disk
    ensures LoadedDoc(c, Files(Some(Readable(disk)), None)) == disk
  {
  }

  lemma {:induction false} EmptyPatch(doc: Json)
    requires doc.Obj?
    ensures Merge(doc, Obj(map[])) == doc
  {
    assert Merge(doc, Obj(map[])).m == doc.m;
  }

  /** An input on which the secrets do not settle: a key that holds an object, patched with another one.  The first
      save stores the text of the merged object, the second that of the patch. */
  lemma {:induction false} ObjectSecretDrifts(c: Catalog, now: string, later: string)
    requires c.Valid() && Acceptable(c, c.defaults)
    requires c.render(Obj(map["a" := Int(1), "b" := Int(2)])) != c.render(Obj(map["b" := Int(2)]))
    ensures var disk := WithEnv(c.defaults, map["X_API_KEY" := Obj(map["a" := Int(1)])]);
            var (files, patch) := (Files(Some(Readable(disk)), None), Obj(map["env" := Obj(map["X_API_KEY" := Obj(map["b" := Int(2)])])]));
            && UpdatedDoc(c, LoadedDoc(c, files), patch, now).Some?
            && (var once := WriteSplit(c, UpdatedDoc(c, LoadedDoc(c, files), patch, now).value);
                var second := UpdatedDoc(c, LoadedDoc(c, once), patch, later);
                second.Some? && !SameFiles(once, WriteSplit(c, second.value)))
  {
    var (was, patched) := (Obj(map["a" := Int(1)]), Obj(map["b" := Int(2)]));
    var disk := WithEnv(c.defaults, map["X_API_KEY" := was]);
    var (files, patch) := (Files(Some(Readable(disk)), None), Obj(map["env" := Obj(map["X_API_KEY" := patched])]));
    assert Merge(was, patched).m == map["a" := Int(1), "b" := Int(2)];
    ObjectSecretLoads(c, disk, was);
    ObjectSecretSaves(c, was, patched, now);
    PatchTwiceStoresSame(c, files, patch, now, later);
  }

  function OneSlot(c: Catalog, v: Json): Json
    requires c.defaults.Obj?
  {
    WithEnv(c.defaults, map["X_API_KEY" := v])
  }

  lemma {:induction false} ObjectSecretLoads(c: Catalog, disk: Json, was: Json)
    requires c.Valid() && was.Obj? && disk == OneSlot(c, was)
    ensures LoadedDoc(c, Files(Some(Readable(disk)), None)) == disk
  {
    MergeSelf(c.defaults);
    ReplacingEnvKeepsDefaults(c, c.defaults, map["X_API_KEY" := was]);
    LoadWithoutSecrets(c, disk);
  }

  /** Patching the one slot merges the two objects. */
  lemma {:induction false} PatchOneSlot(c: Catalog, was: Json, patched: Json)
    requires c.Valid() && was.Obj? && patched.Obj?
    ensures Merge(OneSlot(c, was), Obj(map["env" := Obj(map["X_API_KEY" := patched])])) == OneSlot(c, Merge(was, patched))
  {
    var patch := Obj(map["env" := Obj(map["X_API_KEY" := patched])]);
    var q := Merge(OneSlot(c, was), patch);
    assert q.m.Keys == c.defaults.m.Keys;
    assert q.m["env"] == Merge(Obj(map["X_API_KEY" := was]), Obj(map["X_API_KEY" := patched]));
    assert q.m["env"].m == map["X_API_KEY" := Merge(was, patched)];
    assert q.m == OneSlot(c, Merge(was, patched)).m;
  }

  lemma {:induction false} OneSlotAcceptable(c: Catalog, v: Json)
    requires c.Valid() && Acceptable(c, c.defaults)
    ensures Acceptable(c, OneSlot(c, v)) && VersionOf(c, OneSlot(c, v)) == Some(1)
  {
    AcceptableOutsideEnv(c, c.defaults, OneSlot(c, v));
  }

  lemma {:induction false} AcceptableOutsideEnv(c: Catalog, a: Json, b: Json)
    requires a.Obj? && b.Obj? && a.m.Keys == b.m.Keys && Acceptable(c, a)
    requires forall k | k in a.m && k != "env" :: b.m[k] == a.m[k]
    requires EnvOf(b).Some? ==> "LLM_MODE" !in EnvOf(b).value && "LLM_PROVIDER" !in EnvOf(b).value
    ensures Acceptable(c, b)
  {
  }

  lemma {:induction false} ObjectSecretSaves(c: Catalog, was: Json, patched: Json, now: string)
    requires c.Valid() && Acceptable(c, c.defaults) && was.Obj? && patched.Obj? && c.render(Merge(was, patched)) != c.render(patched)
    ensures var patch := Obj(map["env" := Obj(map["X_API_KEY" := patched])]);
            UpdatedDoc(c, OneSlot(c, was), patch, now).Some? && !SecretsSettle(c, OneSlot(c, was), patch)
  {
    var (patch, merged) := (Obj(map["env" := Obj(map["X_API_KEY" := patched])]), Merge(was, patched));
    IsSecretSlot();
    PatchOneSlot(c, was, patched);
    MergeSelf(c.defaults);
    ReplacingEnvKeepsDefaults(c, c.defaults, map["X_API_KEY" := merged]);
    OneSlotAcceptable(c, merged);
    SavedIs(c, OneSlot(c, was), patch, now);
    assert "X_API_KEY" in EnvOf(patch).value && "X_API_KEY" in EnvOf(OneSlot(c, was)).value;
  }
}
