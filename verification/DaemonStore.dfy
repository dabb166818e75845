/** The daemon that keeps proxy configurations as property lists in a directory, one file a name. */
module DaemonStore {
  import opened BatchUpdate
  import opened DaemonArguments
  import opened Options

  const WORDS: Words<string> := Words("/usr/bin/ss-local", "-s", "-p", "-b", "-l", "-m", "-k", "-t", "127.0.0.1", "300")

  const IDENTIFIER: string := "me.qusic.shadowsocks"
  const EXTENSION: string := ".plist"

  lemma WordsDistinct()
    ensures Distinct(WORDS)
  {
    assert WORDS.s[1] == 's' && WORDS.p[1] == 'p' && WORDS.b[1] == 'b';
    assert WORDS.l[1] == 'l' && WORDS.m[1] == 'm' && WORDS.k[1] == 'k';
  }

  // ---------- file names ----------

  /** The file of a lower-cased name. */
  function FileOf(name: string): string {
    IDENTIFIER + "." + name + EXTENSION
  }

  /** The files the status looks at. */
  predicate Listed(file: string) {
    IDENTIFIER <= file && |file| >= |IDENTIFIER| + |EXTENSION| && file[|file| - |EXTENSION|..] == EXTENSION
  }

  /** The name the status gives a file: one character after the identifier is skipped, and missing is an exception. */
  function NameOf(file: string): Option<string>
    requires Listed(file)
  {
    if |file| == |IDENTIFIER| + |EXTENSION| then None
    else Some(file[|IDENTIFIER| + 1..|file| - |EXTENSION|])
  }

  lemma FileNameRoundTrip(name: string)
    ensures Listed(FileOf(name)) && NameOf(FileOf(name)) == Some(name)
  {
    var file := FileOf(name);
    assert file == IDENTIFIER + ("." + name + EXTENSION);
    assert file == (IDENTIFIER + "." + name) + EXTENSION;
    assert file[|IDENTIFIER| + 1..|file| - |EXTENSION|] == name;
  }

  /**
   The listed files are exactly those that start with the identifier and end with the extension, whatever is in between;
   the first character of that is dropped, and a file without one is an exception.
   */
  lemma ListedIff(file: string)
    ensures Listed(file) <==> exists mid: string :: IsListedAs(file, mid)
    ensures forall mid: string :: IsListedAs(file, mid) ==> NameOf(file) == if mid == "" then None else Some(mid[1..])
  {
    var n := |IDENTIFIER|;
    assert n == 20 && |EXTENSION| == 6;
    if Listed(file) {
      var mid := file[n..|file| - 6];
      assert file == file[..n] + mid + file[|file| - 6..];
      assert IsListedAs(file, mid);
    }
    forall mid: string | IsListedAs(file, mid)
      ensures Listed(file) && NameOf(file) == if mid == "" then None else Some(mid[1..])
    {
      assert file == IDENTIFIER + (mid + EXTENSION);
      assert file[|file| - 6..] == EXTENSION;
      if mid != "" { assert file[n + 1..|file| - 6] == mid[1..]; }
    }
  }

  predicate IsListedAs(file: string, mid: string) {
    file == "me.qusic.shadowsocks" + mid + ".plist"
  }

  /** Names that differ have files that differ. */
  lemma FilesDiffer(name: string, name': string)
    ensures FileOf(name) == FileOf(name') <==> name == name'
  {
    FileNameRoundTrip(name);
    FileNameRoundTrip(name');
  }

  // ---------- requests ----------

  datatype Field = ServerAddress | ServerPort | LocalAddress | LocalPort | Cipher | Key | Unknown(name: string)

  type Config = map<Field, string>

  predicate Given(config: Config, field: Field) {
    field in config && |config[field]| > 0
  }

  predicate ValidConfig(config: Config) {
    && Given(config, ServerAddress) && Given(config, ServerPort) && Given(config, LocalPort)
    && Given(config, Cipher) && Given(config, Key)
  }

  function ValuesOf(config: Config): Values<string>
    requires ValidConfig(config)
  {
    Values(config[ServerAddress], config[ServerPort], config[LocalPort], config[Cipher], config[Key])
  }

  /** How names are checked and lower-cased. */
  datatype Naming = Naming(valid: string -> bool, lower: string -> string)

  /** What a request does about one name: an empty configuration removes the file. */
  function OpOf(naming: Naming, name: string, config: Config): Op<string, seq<string>> {
    if |name| == 0 || !naming.valid(name) then Skip
    else if config == map[] then Remove(FileOf(naming.lower(name)))
    else if ValidConfig(config) then Write(FileOf(naming.lower(name)), Arguments(WORDS, ValuesOf(config)))
    else Skip
  }

  /**
   Exactly what one name of a request does to the files. A name that is not valid does nothing; an empty
   configuration removes the file; one with all five fields is stored with each value behind its flag; one that
   lacks a field, or has it empty, does nothing.
   */
  lemma OpIsExact(naming: Naming, name: string, c: Config, files: map<string, seq<string>>)
    ensures var after, file := Perform(files, OpOf(naming, name, c)), "me.qusic.shadowsocks." + naming.lower(name) + ".plist";
      after ==
      if name == "" || !naming.valid(name) then files
      else if c == map[] then files - {file}
      else if && ServerAddress in c && c[ServerAddress] != "" && ServerPort in c && c[ServerPort] != ""
              && LocalPort in c && c[LocalPort] != "" && Cipher in c && c[Cipher] != "" && Key in c && c[Key] != ""
      then files[file := ["/usr/bin/ss-local", "-s", c[ServerAddress], "-p", c[ServerPort], "-b", "127.0.0.1",
                          "-l", c[LocalPort], "-m", c[Cipher], "-k", c[Key], "-t", "300"]]
      else files
  {
    FileNameSpelled(naming.lower(name));
  }

  lemma FileNameSpelled(name: string)
    ensures FileOf(name) == "me.qusic.shadowsocks." + name + ".plist"
  {
    assert IDENTIFIER + "." == "me.qusic.shadowsocks.";
  }

  function OpsOf(naming: Naming, data: map<string, Config>): map<string, Op<string, seq<string>>> {
    map name | name in data :: OpOf(naming, name, data[name])
  }

  /** Valid names stay distinct when lower-cased. */
  ghost predicate DistinctLowered(naming: Naming, data: map<string, Config>) {
    forall m, n :: m in data && n in data && naming.valid(m) && naming.valid(n) && naming.lower(m) == naming.lower(n) ==> m == n
  }

  /** Then a request does the same in every order of enumeration. */
  lemma DistinctNamesAgree(naming: Naming, data: map<string, Config>, files: map<string, seq<string>>)
    requires DistinctLowered(naming, data)
    ensures Agreeing(OpsOf(naming, data)) && Independent(files, OpsOf(naming, data))
  {
    var ops := OpsOf(naming, data);
    forall m, n | m in ops && n in ops && !ops[m].Skip? && !ops[n].Skip? && ops[m].file == ops[n].file ensures ops[m] == ops[n] {
      FilesDiffer(naming.lower(m), naming.lower(n));
    }
    IndependentIff(files, ops);
  }

  /**
   Over whole requests, in every order of enumeration: a file changes only if some valid name lower-cases to it whose
   configuration is empty or has all five fields.
   */
  lemma RequestChangesOnly(naming: Naming, data: map<string, Config>, order: seq<string>,
                           files: map<string, seq<string>>, after: map<string, seq<string>>, f: string)
    requires (forall n :: n in order ==> n in data) && after == Batch(files, OpsOf(naming, data), order)
    ensures || ((f in after <==> f in files) && (f in files ==> after[f] == files[f]))
            || exists name :: && name in data && name != "" && naming.valid(name)
                              && f == "me.qusic.shadowsocks." + naming.lower(name) + ".plist"
                              && (|| data[name] == map[]
                                  || (&& ServerAddress in data[name] && data[name][ServerAddress] != ""
                                      && ServerPort in data[name] && data[name][ServerPort] != ""
                                      && LocalPort in data[name] && data[name][LocalPort] != ""
                                      && Cipher in data[name] && data[name][Cipher] != ""
                                      && Key in data[name] && data[name][Key] != ""))
  {
    var ops := OpsOf(naming, data);
    if name :| name in order && Touches(ops[name], f) {
      FileNameSpelled(naming.lower(name));
      assert name in data;
    } else {
      Untouched(files, ops, order, f);
    }
  }

  /** Renaming a configuration by the case of its letters: whether it survives depends on the order. */
  lemma RenameByCase(naming: Naming, before: string, after: string, config: Config, files: map<string, seq<string>>)
    requires before != after && |before| > 0 && |after| > 0 && naming.valid(before) && naming.valid(after)
    requires naming.lower(before) == naming.lower(after) && ValidConfig(config)
    ensures var ops, file := OpsOf(naming, map[before := map[], after := config]), FileOf(naming.lower(after));
      file in Batch(files, ops, [before, after]) && file !in Batch(files, ops, [after, before]) && !Independent(files, ops)
  {
    var data: map<string, Config> := map[before := map[], after := config];
    var ops, file := OpsOf(naming, data), FileOf(naming.lower(after));
    assert ops[before] == Remove(file) && ops[after].Write?;
    LastWins(files, ops, [before], after, file);
    LastWins(files, ops, [after], before, file);
    assert [before] + [after] == [before, after] && [after] + [before] == [after, before];
    ConflictDepends(files, ops, before, after, file);
  }

  // ---------- the status ----------

  predicate Readable(file: string, args: seq<string>) {
    Listed(file) && NameOf(file).Some? && ReadStatus(WORDS, args).Some?
  }

  /** `file` is what the status says about `name`. */
  predicate Shows(files: map<string, seq<string>>, file: string, name: string, shown: Shown<string>) {
    file in files && Listed(file) && NameOf(file) == Some(name) && ReadStatus(WORDS, files[file]) == Some(shown)
  }

  /** An exception if any file cannot be read, and otherwise an entry for every file. */
  ghost predicate IsStatus(files: map<string, seq<string>>, r: Option<map<string, Shown<string>>>) {
    && (r.Some? <==> forall f :: f in files && Listed(f) ==> Readable(f, files[f]))
    && (r.Some? ==> && (forall f :: f in files && Listed(f) ==> NameOf(f).value in r.value)
                    && (forall n :: n in r.value ==> exists f :: Shows(files, f, n, r.value[n])))
  }

  /** Every listed file is one that the daemon has named, and can be read. */
  ghost predicate Tidy(files: map<string, seq<string>>) {
    forall f :: f in files && Listed(f) ==> Readable(f, files[f]) && f == FileOf(NameOf(f).value)
  }

  lemma OpKeepsTidy(naming: Naming, name: string, config: Config, files: map<string, seq<string>>)
    requires Tidy(files)
    ensures Tidy(Perform(files, OpOf(naming, name, config)))
  {
    FileNameRoundTrip(naming.lower(name));
    if ValidConfig(config) {
      WordsDistinct();
      StatusIff(WORDS, ValuesOf(config));
    }
  }

  lemma {:induction false} BatchKeepsTidy(naming: Naming, data: map<string, Config>, order: seq<string>,
      files: map<string, seq<string>>)
    requires (forall n :: n in order ==> n in data) && Tidy(files)
    ensures Tidy(Batch(files, OpsOf(naming, data), order))
    decreases |order|
  {
    if order != [] {
      var front, name := order[..|order| - 1], order[|order| - 1];
      BatchKeepsTidy(naming, data, front, files);
      OpKeepsTidy(naming, name, data[name], Batch(files, OpsOf(naming, data), front));
    }
  }

  /** The end of a valid configuration: its own file, read back as it was stored exactly when it is legible. */
  lemma StatusAfterBatch(naming: Naming, data: map<string, Config>, order: seq<string>, name: string,
                         files: map<string, seq<string>>, after: map<string, seq<string>>, r: Option<map<string, Shown<string>>>)
    requires Enumerates(order, data.Keys) && DistinctLowered(naming, data)
    requires after == Batch(files, OpsOf(naming, data), order) && IsStatus(after, r) && Tidy(files)
    requires name in data && |name| > 0 && naming.valid(name) && ValidConfig(data[name])
    ensures r.Some? && naming.lower(name) in r.value
    ensures var shown, c := r.value[naming.lower(name)], data[name];
      (&& shown.serverAddress == c[ServerAddress] && shown.serverPort == c[ServerPort] && shown.localAddress == "127.0.0.1"
       && shown.localPort == c[LocalPort] && shown.cipher == c[Cipher] && shown.key == c[Key])
      <==> Legible(WORDS, ValuesOf(c))
  {
    var low := naming.lower(name);
    BatchKeepsTidy(naming, data, order, files);
    WrittenArguments(naming, data, order, name, files, after);
    FileNameRoundTrip(low);
    WordsDistinct();
    StatusIff(WORDS, ValuesOf(data[name]));
    var f :| Shows(after, f, low, r.value[low]);
  }

  lemma WrittenArguments(naming: Naming, data: map<string, Config>, order: seq<string>, name: string,
                         files: map<string, seq<string>>, after: map<string, seq<string>>)
    requires Enumerates(order, data.Keys) && DistinctLowered(naming, data)
    requires after == Batch(files, OpsOf(naming, data), order)
    requires name in data && |name| > 0 && naming.valid(name) && ValidConfig(data[name])
    ensures var file := FileOf(naming.lower(name)); file in after && after[file] == Arguments(WORDS, ValuesOf(data[name]))
  {
    DistinctNamesAgree(naming, data, files);
    assert data[name] != map[];
    Touched(files, OpsOf(naming, data), order, name, FileOf(naming.lower(name)));
  }

  /** A removed name has no entry. */
  lemma RemovedIsGone(naming: Naming, data: map<string, Config>, order: seq<string>, name: string,
                      files: map<string, seq<string>>, after: map<string, seq<string>>, r: Option<map<string, Shown<string>>>)
    requires Enumerates(order, data.Keys) && DistinctLowered(naming, data)
    requires after == Batch(files, OpsOf(naming, data), order) && IsStatus(after, r) && Tidy(files)
    requires name in data && |name| > 0 && naming.valid(name) && data[name] == map[]
    ensures r.Some? && naming.lower(name) !in r.value
  {
    var low := naming.lower(name);
    BatchKeepsTidy(naming, data, order, files);
    DistinctNamesAgree(naming, data, files);
    Touched(files, OpsOf(naming, data), order, name, FileOf(low));
  }

  // ---------- the service ----------

  lemma NothingToEnumerate(order: seq<string>, keys: set<string>)
    requires Enumerates(order, keys)
    ensures keys == {} <==> order == []
  {
    if order != [] { assert order[0] in keys; }
    if k :| k in keys { assert k in order; }
  }

  datatype Reply = Nothing | Status(entries: map<string, Shown<string>>) | Exception

  class SkiaService {
    /** The directory: the program arguments of every property list. */
    var files: map<string, seq<string>>
    const naming: Naming

    constructor (naming: Naming, files: map<string, seq<string>>)
      ensures this.naming == naming && this.files == files
    {
      this.naming, this.files := naming, files;
    }

    /** The status of every listed file; `listing` is the order of the directory. */
    method DaemonsStatus(listing: seq<string>) returns (r: Option<map<string, Shown<string>>>)
      requires Enumerates(listing, files.Keys)
      ensures IsStatus(files, r)
    {
      var status := map[];
      var i := 0;
      while i < |listing|
        invariant 0 <= i <= |listing|
        invariant forall j :: 0 <= j < i && Listed(listing[j]) ==>
          Readable(listing[j], files[listing[j]]) && NameOf(listing[j]).value in status
        invariant forall n :: n in status ==> exists f :: Shows(files, f, n, status[n])
      {
        var file := listing[i];
        if Listed(file) {
          var name := NameOf(file);
          var shown := ReadStatus(WORDS, files[file]);
          if name.None? || shown.None? {
            assert !Readable(file, files[file]);
            return None;
          }
          status := status[name.value := shown.value];
          assert Shows(files, file, name.value, shown.value);
        }
        i := i + 1;
      }
      return Some(status);
    }

    /** The block of the enumeration, for one name. */
    method UpdateDaemon(name: string, config: Config)
      modifies this`files
      ensures files == Perform(old(files), OpOf(naming, name, config))
      ensures forall field :: field in {ServerAddress, ServerPort, LocalPort, Cipher, Key} ==>
        (config != map[] && (field !in config || config[field] == "") ==> files == old(files))
    {
      if |name| > 0 && naming.valid(name) {
        var file := FileOf(naming.lower(name));
        if |config| > 0 {
          if ValidConfig(config) {
            files := files[file := Arguments(WORDS, ValuesOf(config))];
          }
        } else {
          files := files - {file};
        }
      }
    }

    method UpdateDaemons(data: map<string, Config>, order: seq<string>)
      requires Enumerates(order, data.Keys)
      modifies this`files
      ensures files == Batch(old(files), OpsOf(naming, data), order)
    {
      ghost var ops := OpsOf(naming, data);
      var i := 0;
      while i < |order|
        invariant 0 <= i <= |order| && files == Batch(old(files), ops, order[..i])
      {
        OneMore(old(files), ops, order, i);
        UpdateDaemon(order[i], data[order[i]]);
        i := i + 1;
      }
      assert order[..i] == order;
    }

    /** processDaemonsRequest; `order` is the order in which the dictionary is enumerated. */
    method ProcessDaemonsRequest(data: map<string, Config>, order: seq<string>, listing: seq<string>)
        returns (reply: Reply)
      requires Enumerates(order, data.Keys) && Enumerates(listing, files.Keys)
      modifies this`files
      ensures files == Batch(old(files), OpsOf(naming, data), order)
      ensures reply.Nothing? <==> data != map[]
      ensures data == map[] ==> files == old(files) && IsStatus(files, if reply.Status? then Some(reply.entries) else None)
    {
      if |data| > 0 {
        UpdateDaemons(data, order);
        return Nothing;
      }
      NothingToEnumerate(order, data.Keys);
      var r := DaemonsStatus(listing);
      return if r.Some? then Status(r.value) else Exception;
    }
  }
}
