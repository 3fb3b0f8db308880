/** A key-value table kept in files (database/database_openwrt.go). */
module FileTable {
  import opened GoStrings
  import opened GoTypes

  const SLASH_SIGN := "-SLASH_SIGN-"
  const ENTRY := ".entry"

  type Content = seq<int>

  function Escape(key: string): string {
    ReplaceAll(key, "/", SLASH_SIGN)
  }

  function Unescape(name: string): string {
    ReplaceAll(name, SLASH_SIGN, "/")
  }

  /** The file an entry lives in, within the directory of its table. */
  function FileOf(key: string): string {
    Escape(key) + ENTRY
  }

  /** `filepath.Ext`: from the last dot on, or "". */
  function Ext(name: string): string
    decreases |name|
  {
    if name == "" then ""
    else if Ext(name[1..]) != "" then Ext(name[1..])
    else if name[0] == '.' then name
    else ""
  }

  /** The key that `listTable` reads off a file name. */
  function KeyOf(file: string): string {
    Unescape(TrimSuffix(file, Ext(file)))
  }

  // ---------------------------------------------------------------- escaping

  /** At the front of `key` something starts that unescaping would take for an escaped slash. */
  predicate MisreadAt(key: string) {
    HasPrefix(key, "-SLASH_SIGN-") || HasPrefix(key, "-SLASH_SIGN/")
  }

  predicate Misread(key: string) {
    exists i :: 0 <= i <= |key| && MisreadAt(key[i..])
  }

  lemma {:induction false} EscapeIsPlain(key: string)
    ensures '/' !in Escape(key)
  {
    if key != "" {
      EscapeIsPlain(key[1..]);
    }
  }

  lemma EscapeUnfolds(key: string)
    requires key != ""
    ensures Escape(key) == (if key[0] == '/' then SLASH_SIGN else [key[0]]) + Escape(key[1..])
  {
  }

  /** A dash-free word followed by a dash shows up in an escaped key exactly where the key has
      the word followed by a dash or by a slash. */
  lemma {:induction false} WordInEscaped(key: string, word: string)
    requires '-' !in word && '/' !in word
    ensures HasPrefix(Escape(key), word + "-") <==> HasPrefix(key, word + "-") || HasPrefix(key, word + "/")
  {
    if key != "" {
      EscapeUnfolds(key);
      if word != "" {
        WordInEscaped(key[1..], word[1..]);
        ConsPrefix(key, word, "-");
        ConsPrefix(key, word, "/");
        ConsPrefix(Escape(key), word, "-");
        assert key[0] != '/' ==> Escape(key)[1..] == Escape(key[1..]);
      }
    }
  }

  lemma ConsPrefix(s: string, word: string, end: string)
    requires s != "" && word != ""
    ensures HasPrefix(s, word + end) <==> s[0] == word[0] && HasPrefix(s[1..], word[1..] + end)
  {
  }

  /** What unescaping takes for an escaped slash at the front of an escaped key. */
  lemma MisreadMeansSign(key: string)
    requires key != "" && key[0] != '/'
    ensures HasPrefix(Escape(key), SLASH_SIGN) <==> MisreadAt(key)
  {
    EscapeUnfolds(key);
    WordInEscaped(key[1..], "SLASH_SIGN");
    ConsPrefix(key, "-SLASH_SIGN", "-");
    ConsPrefix(key, "-SLASH_SIGN", "/");
    ConsPrefix(Escape(key), "-SLASH_SIGN", "-");
    assert "-SLASH_SIGN"[1..] == "SLASH_SIGN";
    assert "-SLASH_SIGN" + "-" == SLASH_SIGN && "-SLASH_SIGN" + "/" == "-SLASH_SIGN/";
    assert Escape(key)[1..] == Escape(key[1..]);
  }

  lemma MisreadUnfolds(key: string)
    requires key != ""
    ensures Misread(key) <==> MisreadAt(key) || Misread(key[1..])
  {
    assert key[0..] == key;
    if i :| 0 < i <= |key| && MisreadAt(key[i..]) {
      assert key[1..][i - 1..] == key[i..];
    }
    if i :| 0 <= i <= |key[1..]| && MisreadAt(key[1..][i..]) {
      assert key[1..][i..] == key[i + 1..];
    }
  }

  /** Escaping is undone by unescaping exactly for the keys in which nothing is misread. */
  lemma {:induction false} RoundTripIff(key: string)
    ensures Unescape(Escape(key)) == key <==> !Misread(key)
  {
    if key == "" {
      assert !MisreadAt(key[0..]);
    } else {
      var rest := key[1..];
      RoundTripIff(rest);
      EscapeUnfolds(key);
      MisreadUnfolds(key);
      assert key == [key[0]] + rest;
      if key[0] == '/' {
        assert Escape(key)[|SLASH_SIGN|..] == Escape(rest);
        assert Unescape(Escape(key)) == "/" + Unescape(Escape(rest));
      } else {
        MisreadMeansSign(key);
        if MisreadAt(key) {
          assert Unescape(Escape(key))[0] == '/';
        } else {
          assert Escape(key)[1..] == Escape(rest);
          assert Unescape(Escape(key)) == [key[0]] + Unescape(Escape(rest));
        }
      }
    }
  }

  lemma {:induction false} EscapeUndoesUnescape(name: string)
    requires '/' !in name
    ensures Escape(Unescape(name)) == name
  {
    if name != "" {
      if HasPrefix(name, SLASH_SIGN) {
        var rest := name[|SLASH_SIGN|..];
        EscapeUndoesUnescape(rest);
        EscapeUnfolds("/" + Unescape(rest));
        assert ("/" + Unescape(rest))[1..] == Unescape(rest);
        assert name == SLASH_SIGN + rest;
      } else {
        var rest := name[1..];
        EscapeUndoesUnescape(rest);
        EscapeUnfolds([name[0]] + Unescape(rest));
        assert ([name[0]] + Unescape(rest))[1..] == Unescape(rest);
        assert name == [name[0]] + rest;
      }
    }
  }

  lemma {:induction false} ExtOfEntry(name: string)
    ensures Ext(name + ENTRY) == ENTRY
  {
    if name == "" {
      assert Ext("entry") == "";
      assert ENTRY[1..] == "entry" && name + ENTRY == ENTRY;
    } else {
      ExtOfEntry(name[1..]);
      assert (name + ENTRY)[1..] == name[1..] + ENTRY;
    }
  }

  lemma ListedKey(key: string)
    ensures KeyOf(FileOf(key)) == Unescape(Escape(key))
  {
    ExtOfEntry(Escape(key));
    assert TrimSuffix(Escape(key) + ENTRY, ENTRY) == Escape(key);
  }

  /** Reading a file name back and naming the file again gives the same file. */
  lemma FileOfListedKey(key: string)
    ensures FileOf(KeyOf(FileOf(key))) == FileOf(key)
  {
    ListedKey(key);
    EscapeIsPlain(key);
    EscapeUndoesUnescape(Escape(key));
  }

  /** Distinct keys in which nothing is misread never share a file. */
  lemma SafeKeysDoNotCollide(a: string, b: string)
    requires !Misread(a) && !Misread(b) && FileOf(a) == FileOf(b)
    ensures a == b
  {
    ListedKey(a);
    ListedKey(b);
    RoundTripIff(a);
    RoundTripIff(b);
  }

  /** A key in which something is misread shares its file with another key, under which it is
      listed. */
  lemma MisreadKeyCollides(key: string)
    requires Misread(key)
    ensures var other := KeyOf(FileOf(key));
            other != key && FileOf(other) == FileOf(key) && !Misread(other)
  {
    RoundTripIff(key);
    ListedKey(key);
    FileOfListedKey(key);
    var other := KeyOf(FileOf(key));
    ListedKey(other);
    RoundTripIff(other);
  }

  // ---------------------------------------------------------------- the table

  datatype Pair = Pair(key: string, value: Content)

  /** What the file system does with a write: all of it, nothing, or the first `written` bytes. */
  datatype Disk = Works | Refuses | Fails(written: nat)

  /** A call that changes a table: with what came of marshalling and what the disk does. */
  datatype Call =
    | WriteCall(key: string, value: Option<Content>, disk: Disk)
    | DeleteCall(key: string, removable: bool)

  /** A call turns the files `f` into `g` and returns no error exactly if `ok`. Whatever fails leaves
      the files alone, unless a write fails halfway: then the file holds the first part of the value. */
  ghost predicate FileCall(present: bool, f: map<string, Content>, c: Call, g: map<string, Content>, ok: bool) {
    match c
    case WriteCall(key, value, disk) =>
      if value.Some? && present && disk.Works? then ok && g == f[FileOf(key) := value.value]
      else if value.Some? && present && disk.Fails? then
        var n := if disk.written < |value.value| then disk.written else |value.value|;
        !ok && g == f[FileOf(key) := value.value[..n]]
      else !ok && g == f
    case DeleteCall(key, removable) =>
      if FileOf(key) in f && removable then ok && g == f - {FileOf(key)} else !ok && g == f
  }

  /** One table: a directory, which may be missing, and the files in it. */
  class Table {
    var present: bool
    var files: map<string, Content>

    constructor (present: bool)
      ensures this.present == present && files == map[]
    {
      this.present, files := present, map[];
    }

    /** `marshalled` is None if the value has no JSON form. A write that fails halfway has cut the
        file down to what was written so far. */
    method Write(key: string, marshalled: Option<Content>, disk: Disk) returns (ok: bool)
      modifies `files
      ensures FileCall(present, old(files), WriteCall(key, marshalled, disk), files, ok)
      ensures ok ==> FileOf(key) in files && Some(files[FileOf(key)]) == marshalled
    {
      if marshalled.None? || !present || disk.Refuses? {
        return false;
      }
      var js := marshalled.value;
      var n := if disk.Fails? && disk.written < |js| then disk.written else |js|;
      files := files[Escape(key) + ENTRY := js[..n]];
      ok := disk.Works?;
      assert js[..|js|] == js;
    }

    method KeyExists(key: string) returns (found: bool)
      ensures found <==> FileOf(key) in files
    {
      found := Escape(key) + ENTRY in files;
    }

    /** `readable` is what the file system says, `unmarshal` what the JSON library makes of the
        content. */
    method Read<V>(key: string, readable: string -> bool, unmarshal: Content -> Option<V>) returns (value: Option<V>)
      ensures value == if FileOf(key) in files && readable(FileOf(key)) then unmarshal(files[FileOf(key)]) else None
    {
      var found := KeyExists(key);
      if !found {
        return None;
      }
      var entry := Escape(key) + ENTRY;
      if !readable(entry) {
        return None;
      }
      value := unmarshal(files[entry]);
    }

    method Delete(key: string, removable: bool) returns (ok: bool)
      modifies `files
      ensures FileCall(present, old(files), DeleteCall(key, removable), files, ok)
    {
      var found := KeyExists(key);
      ok := found && removable;
      if ok {
        files := files - {Escape(key) + ENTRY};
      }
    }

    /** Files in any order, each once, with the key read off its name; None without a directory. The
        listing ends at the first file that cannot be read, without an error: it is of all files
        exactly if all can be read. */
    method ListTable(readable: string -> bool) returns (results: Option<seq<Pair>>, ghost listed: map<string, Content>)
      ensures results.Some? <==> present
      ensures forall f :: f in listed ==> f in files && listed[f] == files[f] && readable(f)
      ensures present ==> Lists(results.value, listed)
      ensures present ==> (listed == files <==> forall f :: f in files ==> readable(f))
    {
      listed := map[];
      if !present {
        return None, listed;
      }
      var pairs: seq<Pair> := [];
      var rest := files;
      while rest != map[]
        invariant forall f :: f in files <==> f in rest || f in listed
        invariant forall f :: f in rest ==> rest[f] == files[f] && f !in listed
        invariant forall f :: f in listed ==> listed[f] == files[f] && readable(f)
        invariant Lists(pairs, listed)
        decreases |rest|
      {
        var file :| file in rest;
        if !readable(file) {
          break;
        }
        assert (rest - {file}).Keys == rest.Keys - {file};
        pairs := pairs + [Pair(KeyOf(file), rest[file])];
        listed := listed[file := rest[file]];
        rest := rest - {file};
      }
      results := Some(pairs);
    }
  }

  ghost predicate Lists(pairs: seq<Pair>, files: map<string, Content>) {
    |pairs| == |files| && forall f :: f in files ==> Pair(KeyOf(f), files[f]) in pairs
  }

  // ---------------------------------------------------------------- refinement

  /** The same call on a map from keys to values. A write that fails may leave a first part of the
      value. */
  ghost predicate MapCall(present: bool, m: map<string, Content>, c: Call, w: map<string, Content>, ok: bool) {
    match c
    case WriteCall(key, value, disk) =>
      && ok == (value.Some? && present && disk.Works?)
      && if ok then w == m[key := value.value]
         else w == m || (disk.Fails? && value.Some?
                         && exists n :: 0 <= n <= |value.value| && w == m[key := value.value[..n]])
    case DeleteCall(key, removable) =>
      ok == (key in m && removable) && w == if ok then m - {key} else m
  }

  /** A run of calls on one table: the files before, between and after them. */
  ghost predicate FileRun(present: bool, fs: seq<map<string, Content>>, cs: seq<Call>, oks: seq<bool>) {
    && |fs| == |cs| + 1 && |oks| == |cs| && fs[0] == map[]
    && forall i :: 0 <= i < |cs| ==> FileCall(present, fs[i], cs[i], fs[i + 1], oks[i])
  }

  ghost predicate MapRun(present: bool, ms: seq<map<string, Content>>, cs: seq<Call>, oks: seq<bool>) {
    && |ms| == |cs| + 1 && |oks| == |cs| && ms[0] == map[]
    && forall i :: 0 <= i < |cs| ==> MapCallAt(present, ms, cs, oks, i)
  }

  ghost predicate MapCallAt(present: bool, ms: seq<map<string, Content>>, cs: seq<Call>, oks: seq<bool>, i: nat) {
    i < |cs| && i < |oks| && i + 1 < |ms| && MapCall(present, ms[i], cs[i], ms[i + 1], oks[i])
  }

  /** The files hold exactly the live keys, and every file name reads back as its key. */
  ghost predicate Represents(files: map<string, Content>, m: map<string, Content>) {
    && (forall k :: k in m ==> !Misread(k) && FileOf(k) in files && files[FileOf(k)] == m[k])
    && (forall f :: f in files ==> KeyOf(f) in m && FileOf(KeyOf(f)) == f)
  }

  lemma SafeKeyReadsBack(k: string)
    requires !Misread(k)
    ensures KeyOf(FileOf(k)) == k
  {
    ListedKey(k);
    RoundTripIff(k);
  }

  lemma PutKeepsRepresentation(f: map<string, Content>, m: map<string, Content>, key: string, v: Content)
    requires Represents(f, m) && !Misread(key)
    ensures Represents(f[FileOf(key) := v], m[key := v])
  {
    SafeKeyReadsBack(key);
    forall k | k in m && FileOf(k) == FileOf(key) ensures k == key {
      SafeKeysDoNotCollide(k, key);
    }
  }

  lemma DropKeepsRepresentation(f: map<string, Content>, m: map<string, Content>, key: string)
    requires Represents(f, m) && !Misread(key)
    ensures Represents(f - {FileOf(key)}, m - {key})
    ensures FileOf(key) in f <==> key in m
  {
    SafeKeyReadsBack(key);
    forall k | k in m && FileOf(k) == FileOf(key) ensures k == key {
      SafeKeysDoNotCollide(k, key);
    }
  }

  /** One call on the files is the same call on the map. */
  lemma CallRefines(present: bool, f: map<string, Content>, m: map<string, Content>, c: Call,
                    g: map<string, Content>, ok: bool) returns (w: map<string, Content>)
    requires Represents(f, m) && !Misread(c.key) && FileCall(present, f, c, g, ok)
    ensures Represents(g, w) && MapCall(present, m, c, w, ok)
  {
    w := m;
    match c
    case WriteCall(key, value, disk) =>
      if value.Some? && present && !disk.Refuses? {
        var part := g[FileOf(key)];
        PutKeepsRepresentation(f, m, key, part);
        w := m[key := part];
        assert disk.Fails? ==> part == value.value[..|part|];
      }
    case DeleteCall(key, removable) =>
      DropKeepsRepresentation(f, m, key);
      if ok {
        w := m - {key};
      }
  }

  ghost predicate HeldAt(fs: seq<map<string, Content>>, ms: seq<map<string, Content>>, i: nat) {
    i < |fs| && i < |ms| && Represents(fs[i], ms[i])
  }

  /** The first `n` calls of a run on the files, told of the map. */
  ghost predicate Refined(present: bool, fs: seq<map<string, Content>>, ms: seq<map<string, Content>>, cs: seq<Call>,
                          oks: seq<bool>, n: nat) {
    && |ms| == n + 1 && ms[0] == map[]
    && (forall i :: 0 <= i < n ==> MapCallAt(present, ms, cs, oks, i))
    && (forall i :: 0 <= i <= n ==> HeldAt(fs, ms, i))
  }

  lemma RefinedGrows(present: bool, fs: seq<map<string, Content>>, ms: seq<map<string, Content>>, cs: seq<Call>,
                     oks: seq<bool>, n: nat, w: map<string, Content>)
    requires n < |cs| == |oks| && |fs| == |cs| + 1 && Refined(present, fs, ms, cs, oks, n)
    requires MapCall(present, ms[n], cs[n], w, oks[n]) && Represents(fs[n + 1], w)
    ensures Refined(present, fs, ms + [w], cs, oks, n + 1)
  {
    forall i | 0 <= i < n + 1 ensures MapCallAt(present, ms + [w], cs, oks, i) {
      assert i < n ==> MapCallAt(present, ms, cs, oks, i);
    }
    forall i | 0 <= i <= n + 1 ensures HeldAt(fs, ms + [w], i) {
      assert i <= n ==> HeldAt(fs, ms, i);
    }
  }

  /** For keys in which nothing is misread every run of writes and deletes, whether they fail or not,
      is a run of the same calls on a map from keys to values, which the files hold all along. */
  lemma TableRefinesMap(present: bool, fs: seq<map<string, Content>>, cs: seq<Call>, oks: seq<bool>)
    returns (ms: seq<map<string, Content>>)
    requires FileRun(present, fs, cs, oks) && forall c :: c in cs ==> !Misread(c.key)
    ensures MapRun(present, ms, cs, oks) && forall i :: 0 <= i < |fs| ==> HeldAt(fs, ms, i)
  {
    ms := [map[]];
    for n := 0 to |cs|
      invariant Refined(present, fs, ms, cs, oks, n)
    {
      var w := NextMap(present, fs, ms, cs, oks, n);
      RefinedGrows(present, fs, ms, cs, oks, n, w);
      ms := ms + [w];
    }
  }

  lemma NextMap(present: bool, fs: seq<map<string, Content>>, ms: seq<map<string, Content>>, cs: seq<Call>,
                oks: seq<bool>, n: nat)
    returns (w: map<string, Content>)
    requires FileRun(present, fs, cs, oks) && n < |cs| && !Misread(cs[n].key)
    requires Refined(present, fs, ms, cs, oks, n)
    ensures MapCall(present, ms[n], cs[n], w, oks[n]) && Represents(fs[n + 1], w)
  {
    assert HeldAt(fs, ms, n);
    w := CallRefines(present, fs[n], ms[n], cs[n], fs[n + 1], oks[n]);
  }

  /** What a read finds under a key in which nothing is misread is what the map has there. */
  lemma RepresentedReads(f: map<string, Content>, m: map<string, Content>, key: string)
    requires Represents(f, m) && !Misread(key)
    ensures FileOf(key) in f <==> key in m
    ensures key in m ==> f[FileOf(key)] == m[key]
  {
    DropKeepsRepresentation(f, m, key);
  }

  /** The last successful write of a key is what a read finds, whatever happens to other keys. */
  lemma {:induction false} LastWriteIsRead(present: bool, fs: seq<map<string, Content>>, cs: seq<Call>,
                                           oks: seq<bool>, i: nat, n: nat)
    requires FileRun(present, fs, cs, oks) && forall c :: c in cs ==> !Misread(c.key)
    requires i < n <= |cs| && cs[i].WriteCall? && oks[i]
    requires forall j :: i < j < n ==> cs[j].key != cs[i].key
    ensures cs[i].value.Some? && FileOf(cs[i].key) in fs[n] && fs[n][FileOf(cs[i].key)] == cs[i].value.value
  {
    assert FileCall(present, fs[n - 1], cs[n - 1], fs[n], oks[n - 1]);
    if n > i + 1 {
      LastWriteIsRead(present, fs, cs, oks, i, n - 1);
      if FileOf(cs[n - 1].key) == FileOf(cs[i].key) {
        SafeKeysDoNotCollide(cs[n - 1].key, cs[i].key);
      }
    }
  }

  ghost function FileNames(ks: set<string>): set<string> {
    set k | k in ks :: FileOf(k)
  }

  lemma {:induction false} ImageSize(ks: set<string>)
    requires forall a, b :: a in ks && b in ks && FileOf(a) == FileOf(b) ==> a == b
    ensures |FileNames(ks)| == |ks|
  {
    if ks != {} {
      var k :| k in ks;
      ImageSize(ks - {k});
      assert FileNames(ks) == FileNames(ks - {k}) + {FileOf(k)};
    }
  }

  lemma SameSize(files: map<string, Content>, m: map<string, Content>)
    requires Represents(files, m)
    ensures |files| == |m|
  {
    forall a, b | a in m.Keys && b in m.Keys && FileOf(a) == FileOf(b) ensures a == b {
      SafeKeysDoNotCollide(a, b);
    }
    ImageSize(m.Keys);
    SameMembers(FileNames(m.Keys), files.Keys);
  }

  lemma SameMembers(a: set<string>, b: set<string>)
    requires forall x :: x in a <==> x in b
    ensures a == b
  {
  }

  /** So a listing is exactly the live keys and values, each once. */
  lemma ListingIsExact(files: map<string, Content>, m: map<string, Content>, pairs: seq<Pair>)
    requires Represents(files, m) && Lists(pairs, files)
    ensures |pairs| == |m|
    ensures forall k :: k in m ==> Pair(k, m[k]) in pairs
    ensures forall p :: p in pairs ==> p.key in m && m[p.key] == p.value
  {
    SameSize(files, m);
    forall k | k in m ensures Pair(k, m[k]) in pairs {
      SafeKeyReadsBack(k);
    }
    AllPairsAreLive(pairs, m);
  }

  lemma AllPairsAreLive(pairs: seq<Pair>, m: map<string, Content>)
    requires |pairs| == |m|
    requires forall k :: k in m ==> Pair(k, m[k]) in pairs
    ensures forall p :: p in pairs ==> p.key in m && m[p.key] == p.value
  {
    if i :| 0 <= i < |pairs| && (pairs[i].key !in m || m[pairs[i].key] != pairs[i].value) {
      var others := pairs[..i] + pairs[i + 1..];
      forall k | k in m ensures Pair(k, m[k]) in others {
        var j :| 0 <= j < |pairs| && pairs[j] == Pair(k, m[k]);
        assert others[if j < i then j else j - 1] == Pair(k, m[k]);
      }
      TooFewPairs(others, m);
    }
  }

  lemma TooFewPairs(pairs: seq<Pair>, m: map<string, Content>)
    requires forall k :: k in m ==> Pair(k, m[k]) in pairs
    ensures |m| <= |pairs|
  {
    if pairs != [] {
      var n := |pairs| - 1;
      var k := pairs[n].key;
      var rest := m - {k};
      assert rest.Keys == m.Keys - {k};
      TooFewPairs(pairs[..n], rest);
    } else if k :| k in m {
      assert false;
    }
  }

  /** And the condition is exact: written on its own, a key comes back from a listing under its
      own name if and only if nothing in it is misread. */
  lemma ListedUnderOwnNameIff(key: string, value: Content, pairs: seq<Pair>)
    requires Lists(pairs, map[FileOf(key) := value])
    ensures pairs == [Pair(key, value)] <==> !Misread(key)
  {
    ListedKey(key);
    RoundTripIff(key);
    assert pairs[0] == Pair(KeyOf(FileOf(key)), value);
    assert pairs == [pairs[0]];
  }
}
