/** gui/settings_store.py: loading, saving and patching the two settings files in place. */
module SettingsStore {
  import opened Hashing
  import opened JsonValue
  import opened Settings
  import opened SettingsLaws

  /** The loop of `_split_secrets` over a fresh copy of the environment block. */
  method SplitEnv(c: Catalog, env: map<string, Json>) returns (public: map<string, Json>, secrets: map<string, string>)
    ensures public == PublicEnv(env) && secrets == SecretsOf(c, env)
  {
    public, secrets := env, map[];
    var keys := env.Keys;
    while keys != {}
      invariant keys <= env.Keys && public.Keys == env.Keys
      invariant forall k | k in env :: public[k] == if k in keys then env[k] else PublicEnv(env)[k]
      invariant forall k :: k in secrets <==> k in SecretsOf(c, env) && k !in keys
      invariant forall k | k in secrets :: secrets[k] == SecretsOf(c, env)[k]
      decreases keys
    {
      var key :| key in keys;
      keys := keys - {key};
      if IsSecretKey(key) {
        if !c.Unset(env[key]) {
          secrets := secrets[key := c.render(env[key])];
        }
        public := public[key := Null];
      }
    }
  }

  /** The loop of `mask_secrets`. */
  method MaskSecrets(c: Catalog, doc: Json) returns (masked: Json)
    ensures masked == Masked(c, doc)
    ensures doc.Obj? && "env" in doc.m && doc.m["env"].Obj? ==>
              && masked.Obj? && masked.m.Keys == doc.m.Keys && masked.m["env"].Obj? && masked.m["env"].m.Keys == doc.m["env"].m.Keys
              && forall k | k in doc.m["env"].m ::
                   var (v, shown) := (doc.m["env"].m[k], masked.m["env"].m[k]);
                   if |k| >= 4 && k[|k| - 4] == '_' && (k[|k| - 3] == 'k' || k[|k| - 3] == 'K') && (k[|k| - 2] == 'e' || k[|k| - 2] == 'E') && (k[|k| - 1] == 'y' || k[|k| - 1] == 'Y')
                   then shown == if v.Null? || (v.Str? && c.blank(v.s)) then Null else Str("set")
                   else shown == v
  {
    if !doc.Obj? {
      return Obj(map[]);
    }
    if "env" !in doc.m || !doc.m["env"].Obj? {
      return doc;
    }
    var env := doc.m["env"].m;
    var out := env;
    var keys := env.Keys;
    while keys != {}
      invariant keys <= env.Keys && out.Keys == env.Keys
      invariant forall k | k in env :: out[k] == if k in keys then env[k] else MaskedEnv(c, env)[k]
      decreases keys
    {
      var key :| key in keys;
      keys := keys - {key};
      if IsSecretKey(key) {
        out := out[key := if c.Unset(env[key]) then Null else Str("set")];
      }
    }
    assert out == MaskedEnv(c, env);
    forall k | k in env { SlotIs(c, env, k); }
    return WithEnv(doc, out);
  }

  class Store {
    const catalog: Catalog
    var files: Files
    /** the files as they were between the two writes of the last split */
    ghost var halfway: Files

    constructor (catalog: Catalog, files: Files)
      ensures this.catalog == catalog && this.files == files
    {
      this.catalog, this.files, this.halfway := catalog, files, files;
    }

    /** `_write_split`: the public file first, then the secrets, each replaced as a whole. */
    method Write(doc: Json)
      requires doc.Obj?
      modifies this
      ensures files == WriteSplit(catalog, doc)
      ensures halfway == old(files).(settings := files.settings)
    {
      var public, secrets := doc, map[];
      if "env" in doc.m && doc.m["env"].Obj? {
        var env;
        env, secrets := SplitEnv(catalog, doc.m["env"].m);
        public := WithEnv(doc, env);
      }
      files := files.(settings := Some(Readable(public)));
      halfway := files;
      files := files.(secrets := Some(Readable(SecretsJson(secrets))));
    }

    /** Returns the defaults overlaid with the file and the secrets; a file that still has plaintext
        secrets is split on the way, and loading once more is then a no-op with the same document. */
    method Load() returns (doc: Json)
      requires catalog.Valid()
      modifies this
      ensures doc == LoadedDoc(catalog, old(files)) && files == FilesAfterLoad(catalog, old(files))
      ensures LoadedDoc(catalog, files) == (if files == old(files) then doc else Normal(catalog, doc))
      ensures FilesAfterLoad(catalog, files) == files
    {
      MigrationSettles(catalog, files);
      if files.settings.None? || files.settings.value.Unreadable? || !files.settings.value.doc.Obj? {
        return catalog.defaults;
      }
      var disk := files.settings.value.doc;
      doc := WithSecrets(Merge(catalog.defaults, disk), ReadSecrets(catalog, files));
      if HasPlaintextSecrets(catalog, disk) {
        Write(doc);
      }
    }

    /** A refused document leaves both files alone; an accepted one is what the next load returns, with
        its secret slots normalised. */
    method Save(doc: Json, now: string) returns (stored: Option<Json>)
      requires catalog.Valid()
      modifies this
      ensures stored == SavedDoc(catalog, doc, now)
      ensures stored.None? ==> files == old(files)
      ensures stored.Some? ==> doc.Obj?
      ensures stored.Some? ==> files == WriteSplit(catalog, stored.value) && LoadedDoc(catalog, files) == Normal(catalog, stored.value)
      ensures stored.Some? && "env" in doc.m && doc.m["env"].Obj? ==>
                && (var disk := OnDisk(files); disk.Some? && "env" in disk.value.m && disk.value.m["env"].Obj? && disk.value.m["env"].m.Keys == doc.m["env"].m.Keys)
                && files.secrets.Some? && files.secrets.value.Readable? && files.secrets.value.doc.Obj?
                && forall k | k in doc.m["env"].m ::
                     var (v, public, secrets) := (doc.m["env"].m[k], OnDisk(files).value.m["env"].m[k], files.secrets.value.doc.m);
                     if |k| >= 4 && k[|k| - 4] == '_' && (k[|k| - 3] == 'k' || k[|k| - 3] == 'K') && (k[|k| - 2] == 'e' || k[|k| - 2] == 'E') && (k[|k| - 1] == 'y' || k[|k| - 1] == 'Y')
                     then public == Null && if v.Null? || (v.Str? && catalog.blank(v.s)) then k !in secrets else k in secrets && secrets[k] == Str(catalog.render(v))
                     else public == v && k !in secrets
    {
      stored := SavedDoc(catalog, doc, now);
      if stored.Some? {
        Write(stored.value);
        SaveThenLoad(catalog, doc, now);
        if EnvOf(doc).Some? {
          SavedEnv(catalog, doc, now);
          forall k | k in doc.m["env"].m { SlotIs(catalog, doc.m["env"].m, k); }
        }
      }
    }

    method Update(patch: Json, now: string) returns (stored: Option<Json>)
      requires catalog.Valid()
      modifies this
      ensures stored == UpdatedDoc(catalog, LoadedDoc(catalog, old(files)), patch, now)
      ensures files == match stored {
                         case Some(doc) => WriteSplit(catalog, doc)
                         case None => if patch.Obj? then FilesAfterLoad(catalog, old(files)) else old(files)
                       }
    {
      if !patch.Obj? {
        return None;
      }
      var current := Load();
      stored := Save(Merge(current, patch), now);
    }
  }
}
