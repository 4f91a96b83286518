/** File operations behind permissions: stored bytes and the encrypted flag together stand for
    one plaintext. */
module FileOps {
  import opened Options
  import opened Bytes
  import opened CStrings
  import opened FileMeta
  import opened XorCipher
  import Sha256Example
  import Sha256Spec

  const STORAGE_DIR: string := "storage"

  datatype Fs = Fs(records: seq<Record>, storage: map<string, seq<Byte>>)

  /** The path is cut to its buffer. */
  function StoragePath(name: string): string {
    Cut(STORAGE_DIR + "/" + name, MAX_FILENAME + 32)
  }

  lemma PathsDiffer(a: string, b: string)
    requires |a| < MAX_FILENAME && |b| < MAX_FILENAME && a != b
    ensures StoragePath(a) != StoragePath(b)
  {
    var dir := STORAGE_DIR + "/";
    assert (dir + a)[|dir|..] == a && (dir + b)[|dir|..] == b;
  }

  /** Bytes as they pass between a caller and the storage of a file. */
  function Through(r: Record, bytes: seq<Byte>, passphrase: Option<seq<Byte>>): (t: seq<Byte>)
    ensures |t| == |bytes|
  {
    if r.encrypted then Ciphered(bytes, passphrase) else bytes
  }

  datatype User = User(name: string, group: string)

  /** The record of the name, when the user has the access. */
  function Granted(records: seq<Record>, user: User, name: string, access: Access): Option<Record> {
    match Lookup(records, name)
    case None => None
    case Some(r) => if MayAccess(user, r, access) then Some(r) else None
  }

  predicate MayAccess(user: User, r: Record, access: Access) {
    |r.permissions| == 9 && Permitted(user.name, user.group, r, access)
  }

  // ----- The operations -----

  datatype FileOp =
    | CreateFile(user: User, name: string, perms: string, content: seq<Byte>)
    | WriteFile(user: User, name: string, passphrase: Option<seq<Byte>>, content: seq<Byte>, append: bool)
    | DeleteFile(user: User, name: string)
    | TransformFile(user: User, name: string, phrase: seq<Byte>, encrypt: bool)
    | ChmodFile(name: string, perms: string)

  function Perform(fs: Fs, op: FileOp): (Fs, bool) {
    match op
    case CreateFile(user, name, perms, content) =>
      var (records, ok) := Create(fs.records, name, user.name, user.group, perms);
      if ok then (Fs(records, fs.storage[StoragePath(name) := content]), true) else (fs, false)
    case WriteFile(user, name, passphrase, content, append) =>
      (match Granted(fs.records, user, name, ToWrite)
       case None => (fs, false)
       case Some(r) =>
         var path, out := StoragePath(name), Through(r, content, passphrase);
         var before := if append && path in fs.storage then fs.storage[path] else [];
         (fs.(storage := fs.storage[path := before + out]), true))
    case DeleteFile(user, name) =>
      (match Granted(fs.records, user, name, ToWrite)
       case None => (fs, false)
       case Some(_) => (Fs(Delete(fs.records, name).0, fs.storage - {StoragePath(name)}), true))
    case TransformFile(user, name, phrase, encrypt) =>
      (match Granted(fs.records, user, name, ToWrite)
       case None => (fs, false)
       case Some(r) =>
         var path := StoragePath(name);
         if r.encrypted == encrypt || path !in fs.storage then (fs, false)
         else (Fs(SetEncrypted(fs.records, name, encrypt).0,
                  fs.storage[path := Ciphered(fs.storage[path], Some(phrase))]), true))
    case ChmodFile(name, perms) =>
      var (records, found) := Chmod(fs.records, name, perms);
      (fs.(records := records), found)
  }

  /** Reading fills a buffer of the given size, all but its last byte. */
  function ReadFile(fs: Fs, user: User, name: string, passphrase: Option<seq<Byte>>, size: nat)
    : Option<seq<Byte>>
    requires size >= 1
  {
    match Granted(fs.records, user, name, ToRead)
    case None => None
    case Some(r) =>
      var path := StoragePath(name);
      if path !in fs.storage then None
      else Some(Through(r, FirstBytes(fs.storage[path], size - 1), passphrase))
  }

  function FirstBytes(bytes: seq<Byte>, n: nat): (r: seq<Byte>)
    ensures r <= bytes && |r| == (if |bytes| <= n then |bytes| else n)
  {
    if |bytes| <= n then bytes else bytes[..n]
  }

  // ----- The plaintext of each file -----

  /** One passphrase for each file. */
  type Keyring = string -> seq<Byte>

  function KeyOf(keys: Keyring, name: string): (k: seq<Byte>)
    ensures |k| == 32
  {
    Sha256Spec.Sha256(keys(name))
  }

  /** The bytes stored for a plaintext. */
  function Stored(keys: Keyring, name: string, encrypted: bool, plain: seq<Byte>): (s: seq<Byte>)
    ensures |s| == |plain|
  {
    if encrypted then Xor(plain, KeyOf(keys, name)) else plain
  }

  /** Records, flags and stored bytes stand for the plaintexts. */
  ghost predicate Represents(fs: Fs, keys: Keyring, plain: map<string, seq<Byte>>) {
    && WellFormed(fs.records)
    && plain.Keys == MapOf(fs.records).Keys
    && forall name :: name in plain ==> FileStands(fs, keys, name, plain[name])
  }

  ghost predicate FileStands(fs: Fs, keys: Keyring, name: string, plain: seq<Byte>) {
    && name in MapOf(fs.records)
    && StoragePath(name) in fs.storage
    && fs.storage[StoragePath(name)] == Stored(keys, name, MapOf(fs.records)[name].encrypted, plain)
  }

  /** What is written to an encrypted file is ciphered as the file's key goes on from its text. */
  ghost predicate WriteFits(keys: Keyring, fs: Fs, plain: map<string, seq<Byte>>, op: FileOp) {
    op.WriteFile? && op.name in plain && op.name in MapOf(fs.records) && MapOf(fs.records)[op.name].encrypted ==>
      StreamFits(KeyOf(keys, op.name), if op.append then |plain[op.name]| else 0, op.passphrase, |op.content|)
  }

  /** A file is encrypted or decrypted with what its key gives over its text. */
  ghost predicate TransformFits(keys: Keyring, plain: map<string, seq<Byte>>, op: FileOp) {
    op.TransformFile? && op.name in plain ==>
      StreamFits(KeyOf(keys, op.name), 0, Some(op.phrase), |plain[op.name]|)
  }

  /** The operation rewrites the metadata file. */
  predicate Rewriting(fs: Fs, op: FileOp) {
    || ((op.DeleteFile? || op.TransformFile?) && Perform(fs, op).1)
    || (op.ChmodFile? && ValidPerms(op.perms))
  }

  /** The rewrite loses no record of another file. */
  predicate Survives(fs: Fs, op: FileOp) {
    Rewriting(fs, op) ==>
      || |fs.records| <= REWRITE_LIMIT
      || (op.DeleteFile? && forall i :: REWRITE_LIMIT <= i < |fs.records| ==> Named(fs.records[i], op.name))
  }

  /** The same operation on plaintexts, when it succeeds. */
  function PlainAfter(plain: map<string, seq<Byte>>, op: FileOp): map<string, seq<Byte>> {
    match op
    case CreateFile(_, name, _, content) => plain[name := content]
    case WriteFile(_, name, _, content, append) =>
      if append && name in plain then plain[name := plain[name] + content] else plain[name := content]
    case DeleteFile(_, name) => plain - {name}
    case TransformFile(_, _, _, _) => plain
    case ChmodFile(_, _) => plain
  }

  function PlainStep(fs: Fs, plain: map<string, seq<Byte>>, op: FileOp): map<string, seq<Byte>> {
    if Perform(fs, op).1 then PlainAfter(plain, op) else plain
  }

  /** A state differs from another at no other file than the one named. */
  ghost predicate SameElsewhere(fs: Fs, after: Fs, name: string) {
    && MapOf(after.records).Keys + {name} == MapOf(fs.records).Keys + {name}
    && (forall k :: k in MapOf(fs.records) && k != name ==> MapOf(after.records)[k] == MapOf(fs.records)[k])
    && (forall p :: p in fs.storage && p != StoragePath(name) ==> p in after.storage && after.storage[p] == fs.storage[p])
  }

  /** Files left alone still stand for their plaintexts. */
  lemma RestStands(fs: Fs, after: Fs, keys: Keyring, plain: map<string, seq<Byte>>, name: string, k: string)
    requires Represents(fs, keys, plain) && SameElsewhere(fs, after, name)
    requires |name| < MAX_FILENAME && k in plain && k != name
    ensures FileStands(after, keys, k, plain[k])
  {
    hide StoragePath, Stored, MapOf;
    ShortName(fs.records, k);
    PathsDiffer(k, name);
    assert FileStands(fs, keys, k, plain[k]);
    assert k in MapOf(after.records).Keys + {name};
  }

  lemma ShortName(records: seq<Record>, name: string)
    requires WellFormed(records) && name in MapOf(records)
    ensures |name| < MAX_FILENAME
  {
    var i := Place(records, name);
    assert RecordOk(records[i]);
  }

  /** When one file is changed, what remains is that it stands for its new plaintext. */
  lemma OneFile(fs: Fs, after: Fs, keys: Keyring, plain: map<string, seq<Byte>>, name: string, text: seq<Byte>)
    requires Represents(fs, keys, plain) && SameElsewhere(fs, after, name) && |name| < MAX_FILENAME
    requires WellFormed(after.records) && name in MapOf(after.records)
    ensures Represents(after, keys, plain[name := text]) <==> FileStands(after, keys, name, text)
  {
    hide StoragePath, Stored, MapOf, FileStands, SameElsewhere, WellFormed;
    var texts := plain[name := text];
    assert texts.Keys == MapOf(after.records).Keys by { KeysElsewhere(fs, after, plain, name); }
    forall k | k in texts && k != name ensures FileStands(after, keys, k, texts[k]) {
      RestStands(fs, after, keys, plain, name, k);
    }
    assert name in texts && texts[name] == text;
  }

  lemma KeysElsewhere(fs: Fs, after: Fs, plain: map<string, seq<Byte>>, name: string)
    requires SameElsewhere(fs, after, name) && plain.Keys == MapOf(fs.records).Keys
    requires name in MapOf(after.records)
    ensures plain.Keys + {name} == MapOf(after.records).Keys
  {
    hide MapOf, StoragePath;
    assert MapOf(after.records).Keys + {name} == MapOf(after.records).Keys;
  }

  lemma GrantedIs(records: seq<Record>, user: User, name: string, access: Access)
    requires WellFormed(records)
    ensures var g := Granted(records, user, name, access);
            g.Some? ==> name in MapOf(records) && g.value == MapOf(records)[name]
  {
    hide MapOf, MayAccess, Lookup;
    LookupIsMap(records, name);
  }

  // ----- One operation -----

  lemma CreateStands(fs: Fs, keys: Keyring, plain: map<string, seq<Byte>>, op: FileOp)
    requires Represents(fs, keys, plain) && |op.name| < MAX_FILENAME && op.CreateFile? && Perform(fs, op).1
    ensures Represents(Perform(fs, op).0, keys, plain[op.name := op.content])
  {
    hide MapOf, StoragePath, Represents, Create, ValidPerms;
    var after := Perform(fs, op).0;
    RecordsOk(fs, keys, plain);
    CreateRefines(fs.records, op.name, op.user.name, op.user.group, op.perms);
    OneFile(fs, after, keys, plain, op.name, op.content);
  }

  lemma RecordsOk(fs: Fs, keys: Keyring, plain: map<string, seq<Byte>>)
    requires Represents(fs, keys, plain)
    ensures WellFormed(fs.records) && plain.Keys == MapOf(fs.records).Keys
  {
    hide MapOf;
  }

  lemma StandsAt(fs: Fs, keys: Keyring, plain: map<string, seq<Byte>>, name: string)
    requires Represents(fs, keys, plain) && name in plain
    ensures FileStands(fs, keys, name, plain[name])
  {
    hide FileStands, MapOf;
  }

  lemma WriteStands(fs: Fs, keys: Keyring, plain: map<string, seq<Byte>>, op: FileOp)
    requires Represents(fs, keys, plain) && |op.name| < MAX_FILENAME && op.WriteFile? && Perform(fs, op).1
    ensures Represents(Perform(fs, op).0, keys, PlainAfter(plain, op)) <==> WriteFits(keys, fs, plain, op)
  {
    hide MapOf, StoragePath, Represents, Granted, Ciphered, FileStands, KeyOf;
    var after, name := Perform(fs, op).0, op.name;
    RecordsOk(fs, keys, plain);
    GrantedIs(fs.records, op.user, name, ToWrite);
    StandsAt(fs, keys, plain, name);
    var text := if op.append then plain[name] + op.content else op.content;
    OneFile(fs, after, keys, plain, name, text);
    WriteText(fs, keys, plain, op);
  }

  /** The written file stands for its text exactly when, if it is encrypted, what was written is
      ciphered as its key goes on from the text before. */
  lemma WriteText(fs: Fs, keys: Keyring, plain: map<string, seq<Byte>>, op: FileOp)
    requires op.WriteFile? && op.name in plain
    requires FileStands(fs, keys, op.name, plain[op.name])
    requires Granted(fs.records, op.user, op.name, ToWrite) == Some(MapOf(fs.records)[op.name])
    ensures FileStands(Perform(fs, op).0, keys, op.name, PlainAfter(plain, op)[op.name])
       <==> WriteFits(keys, fs, plain, op)
  {
    hide MapOf, StoragePath, Granted, Xor, XorFrom, Ciphered, StreamFits, KeyOf;
    var text, key := plain[op.name], KeyOf(keys, op.name);
    if MapOf(fs.records)[op.name].encrypted {
      var written := Ciphered(op.content, op.passphrase);
      if op.append {
        CipheredExactly(op.content, key, |text|, op.passphrase);
        XorConcat(text, op.content, key);
        SameTail(Xor(text, key), written, XorFrom(op.content, key, |text|));
      } else {
        CipheredExactly(op.content, key, 0, op.passphrase);
        FromStart(op.content, key);
        assert [] + written == written;
      }
    } else {
      assert [] + op.content == op.content;
    }
  }

  lemma FromStart(bytes: seq<Byte>, key: seq<Byte>)
    requires key != []
    ensures Xor(bytes, key) == XorFrom(bytes, key, 0)
  {
  }

  lemma TransformStands(fs: Fs, keys: Keyring, plain: map<string, seq<Byte>>, op: FileOp)
    requires Represents(fs, keys, plain) && |op.name| < MAX_FILENAME && op.TransformFile? && Perform(fs, op).1
    requires |fs.records| <= REWRITE_LIMIT
    ensures Represents(Perform(fs, op).0, keys, plain) <==> TransformFits(keys, plain, op)
  {
    hide MapOf, StoragePath, Represents, Granted, Rewrite, Ciphered, KeyOf, FileStands, StreamFits;
    var after, name := Perform(fs, op).0, op.name;
    RecordsOk(fs, keys, plain);
    GrantedIs(fs.records, op.user, name, ToWrite);
    StandsAt(fs, keys, plain, name);
    UpdateRefines(fs.records, name, Update(None, Some(op.encrypt)));
    OneFile(fs, after, keys, plain, name, plain[name]);
    TransformText(fs, after, keys, name, plain[name], op.phrase, op.encrypt);
    assert plain[name := plain[name]] == plain;
  }

  lemma TransformText(fs: Fs, after: Fs, keys: Keyring, name: string, text: seq<Byte>, phrase: seq<Byte>, encrypt: bool)
    requires FileStands(fs, keys, name, text) && name in MapOf(after.records)
    requires MapOf(fs.records)[name].encrypted != encrypt && MapOf(after.records)[name].encrypted == encrypt
    requires var path := StoragePath(name);
             path in after.storage && after.storage[path] == Ciphered(fs.storage[path], Some(phrase))
    ensures FileStands(after, keys, name, text) <==> StreamFits(KeyOf(keys, name), 0, Some(phrase), |text|)
  {
    hide MapOf, StoragePath, Xor, XorFrom, Ciphered, StreamFits, KeyOf;
    var key := KeyOf(keys, name);
    if encrypt {
      CipheredExactly(text, key, 0, Some(phrase));
      FromStart(text, key);
    } else {
      RestoredExactly(text, key, Some(phrase));
    }
  }

  lemma ChmodStands(fs: Fs, keys: Keyring, plain: map<string, seq<Byte>>, op: FileOp)
    requires Represents(fs, keys, plain) && |op.name| < MAX_FILENAME && op.ChmodFile? && Perform(fs, op).1
    requires |fs.records| <= REWRITE_LIMIT
    ensures Represents(Perform(fs, op).0, keys, plain)
  {
    hide MapOf, StoragePath, Represents, Rewrite, ValidPerms, Stored;
    var after, name := Perform(fs, op).0, op.name;
    RecordsOk(fs, keys, plain);
    UpdateRefines(fs.records, name, Update(Some(op.perms), None));
    StandsAt(fs, keys, plain, name);
    OneFile(fs, after, keys, plain, name, plain[name]);
    assert plain[name := plain[name]] == plain;
  }

  lemma DeleteStands(fs: Fs, keys: Keyring, plain: map<string, seq<Byte>>, op: FileOp)
    requires Represents(fs, keys, plain) && |op.name| < MAX_FILENAME && op.DeleteFile? && Perform(fs, op).1
    requires Survives(fs, op)
    ensures Represents(Perform(fs, op).0, keys, plain - {op.name})
  {
    hide MapOf, StoragePath, Granted, Delete, FileStands, Named;
    var after, name := Perform(fs, op).0, op.name;
    RemoveSurvives(fs.records, name);
    assert SameElsewhere(fs, after, name);
    var texts := plain - {name};
    forall k | k in texts ensures FileStands(after, keys, k, texts[k]) {
      RestStands(fs, after, keys, plain, name, k);
    }
  }

  /** A rewrite that loses the record of another file leaves its text without a record. */
  lemma LosesFile(fs: Fs, keys: Keyring, plain: map<string, seq<Byte>>, op: FileOp)
    requires Represents(fs, keys, plain) && !Survives(fs, op)
    ensures !Represents(Perform(fs, op).0, keys, PlainStep(fs, plain, op))
  {
    hide MapOf, StoragePath, Granted, FileStands, Named, Rewrite, ValidPerms;
    var i: nat := REWRITE_LIMIT;
    if op.DeleteFile? {
      i :| REWRITE_LIMIT <= i < |fs.records| && !Named(fs.records[i], op.name);
      OtherName(fs.records[i], op.name);
    }
    var k := fs.records[i].filename;
    assert k in Names(fs.records);
    LostRecord(fs, op, i);
    assert k in PlainStep(fs, plain, op);
  }

  lemma OtherName(r: Record, name: string)
    requires !Named(r, name)
    ensures r.filename != name
  {
  }

  lemma LostRecord(fs: Fs, op: FileOp, i: nat)
    requires WellFormed(fs.records) && Rewriting(fs, op) && REWRITE_LIMIT <= i < |fs.records|
    ensures fs.records[i].filename !in MapOf(Perform(fs, op).0.records)
  {
    hide StoragePath, Granted, Rewrite, ValidPerms, Names;
    match op
    case DeleteFile(_, name) => NameLost(fs.records, name, Remove, i);
    case TransformFile(_, name, _, encrypt) => NameLost(fs.records, name, Update(None, Some(encrypt)), i);
    case ChmodFile(name, perms) => NameLost(fs.records, name, Update(Some(perms), None), i);
    case _ =>
  }

  /** An operation keeps records, flags and stored bytes standing for the plaintexts exactly when
      its rewrite loses no file and what it ciphers is ciphered as the file's key asks. */
  lemma StepExactly(fs: Fs, keys: Keyring, plain: map<string, seq<Byte>>, op: FileOp)
    requires Represents(fs, keys, plain) && |op.name| < MAX_FILENAME
    ensures Represents(Perform(fs, op).0, keys, PlainStep(fs, plain, op))
       <==> Survives(fs, op)
            && (Perform(fs, op).1 ==> WriteFits(keys, fs, plain, op) && TransformFits(keys, plain, op))
  {
    hide Represents, MapOf, WriteFits, TransformFits;
    if !Survives(fs, op) {
      LosesFile(fs, keys, plain, op);
    } else if Perform(fs, op).1 {
      FitsOnly(keys, fs, plain, op);
      hide Perform;
      match op
      case CreateFile(_, _, _, _) => CreateStands(fs, keys, plain, op);
      case WriteFile(_, _, _, _, _) => WriteStands(fs, keys, plain, op);
      case DeleteFile(_, _) => DeleteStands(fs, keys, plain, op);
      case TransformFile(_, _, _, _) => TransformStands(fs, keys, plain, op);
      case ChmodFile(_, _) =>
        PermsChanged(fs, op);
        ChmodStands(fs, keys, plain, op);
    } else {
      Refused(fs, op);
    }
  }

  /** Only writes and transforms cipher anything. */
  lemma FitsOnly(keys: Keyring, fs: Fs, plain: map<string, seq<Byte>>, op: FileOp)
    ensures !op.WriteFile? ==> WriteFits(keys, fs, plain, op)
    ensures !op.TransformFile? ==> TransformFits(keys, plain, op)
  {
  }

  lemma PermsChanged(fs: Fs, op: FileOp)
    requires op.ChmodFile? && Perform(fs, op).1
    ensures ValidPerms(op.perms)
  {
    hide ValidPerms;
  }

  /** A refused operation that loses no file changes nothing. */
  lemma Refused(fs: Fs, op: FileOp)
    requires Survives(fs, op) && !Perform(fs, op).1
    ensures Perform(fs, op).0 == fs
  {
    hide StoragePath, Granted, ValidPerms, Named, Ciphered;
    if op.ChmodFile? && ValidPerms(op.perms) {
      UpdateAll(fs.records, op.name, Update(Some(op.perms), None));
      assert Perform(fs, op).0.records == fs.records;
    }
  }

  // ----- Which passphrases fit -----

  /** A plain file is written and read rightly with any passphrase or none. */
  lemma PlainFileFits(keys: Keyring, fs: Fs, plain: map<string, seq<Byte>>, op: FileOp)
    requires op.WriteFile? && (op.name in MapOf(fs.records) ==> !MapOf(fs.records)[op.name].encrypted)
    ensures WriteFits(keys, fs, plain, op)
  {
    hide MapOf;
  }

  /** With the file's own passphrase an encrypted file is overwritten, encrypted and decrypted
      rightly, and appended to rightly exactly when the key repeats at the joint. */
  lemma OwnPassphrase(keys: Keyring, fs: Fs, plain: map<string, seq<Byte>>, op: FileOp)
    requires op.name in plain && op.name in MapOf(fs.records) && MapOf(fs.records)[op.name].encrypted
    ensures op.TransformFile? && op.phrase == keys(op.name) ==> TransformFits(keys, plain, op)
    ensures op.WriteFile? && op.passphrase == Some(keys(op.name)) ==>
              (WriteFits(keys, fs, plain, op) <==>
                 KeyRepeats(KeyOf(keys, op.name), if op.append then |plain[op.name]| else 0, |op.content|))
  {
    hide MapOf, Sha256Spec.Sha256, StreamFits, KeyRepeats;
    var n := |plain[op.name]|;
    if op.WriteFile? {
      OwnStream(keys, op.name, if op.append then n else 0, |op.content|);
    } else if op.TransformFile? {
      OwnStream(keys, op.name, 0, n);
      AtBeginning(KeyOf(keys, op.name), n);
    }
  }

  /** From its beginning the key repeats itself. */
  lemma AtBeginning(key: seq<Byte>, n: nat)
    requires key != []
    ensures KeyRepeats(key, 0, n)
  {
  }

  lemma OwnStream(keys: Keyring, name: string, start: nat, n: nat)
    ensures var key := KeyOf(keys, name);
            StreamFits(key, start, Some(keys(name)), n) <==> KeyRepeats(key, start, n)
  {
    hide Sha256Spec.Sha256, KeyAt;
    var key, given := KeyOf(keys, name), Some(keys(name));
    forall i: nat ensures StreamByte(given, i) == KeyAt(key, i) {
    }
  }

  /** An append falls where every key repeats when the text fills whole key lengths. */
  lemma AlignedAppend(keys: Keyring, fs: Fs, plain: map<string, seq<Byte>>, op: FileOp)
    requires op.WriteFile? && op.name in plain && op.passphrase == Some(keys(op.name))
    requires |plain[op.name]| % 32 == 0 || op.content == []
    ensures WriteFits(keys, fs, plain, op)
  {
    hide MapOf, Sha256Spec.Sha256, StreamFits, KeyRepeats;
    AlignedRepeats(KeyOf(keys, op.name), |plain[op.name]|, |op.content|);
    AlignedRepeats(KeyOf(keys, op.name), 0, |op.content|);
    OwnStream(keys, op.name, if op.append then |plain[op.name]| else 0, |op.content|);
  }

  // ----- Runs -----

  const EMPTY := Fs([], map[])

  function Run(ops: seq<FileOp>): Fs {
    if ops == [] then EMPTY else Perform(Run(ops[..|ops| - 1]), ops[|ops| - 1]).0
  }

  function PlainRun(ops: seq<FileOp>): map<string, seq<Byte>> {
    if ops == [] then map[]
    else
      var n := |ops| - 1;
      PlainStep(Run(ops[..n]), PlainRun(ops[..n]), ops[n])
  }

  /** Operation number i names a file whose name fits its field, loses no file, and ciphers what it
      writes as the file's key asks. */
  ghost predicate Trusted(keys: Keyring, ops: seq<FileOp>, i: nat)
    requires i < |ops|
  {
    var fs, plain, op := Run(ops[..i]), PlainRun(ops[..i]), ops[i];
    && |op.name| < MAX_FILENAME
    && Survives(fs, op)
    && (Perform(fs, op).1 ==> WriteFits(keys, fs, plain, op) && TransformFits(keys, plain, op))
  }

  /** Over every run of trusted operations, stored bytes and flags stand for the plaintexts. */
  lemma {:induction false} RunRepresents(keys: Keyring, ops: seq<FileOp>)
    requires forall i :: 0 <= i < |ops| ==> Trusted(keys, ops, i)
    ensures Represents(Run(ops), keys, PlainRun(ops))
  {
    if ops == [] {
      EmptyRecords("");
    } else {
      var n := |ops| - 1;
      var front := ops[..n];
      forall i | 0 <= i < n ensures Trusted(keys, front, i) {
        TrustedFront(keys, ops, i);
      }
      RunRepresents(keys, front);
      assert Trusted(keys, ops, n);
      hide Represents, WriteFits, TransformFits, Survives, Perform;
      StepExactly(Run(front), keys, PlainRun(front), ops[n]);
    }
  }

  lemma TrustedFront(keys: Keyring, ops: seq<FileOp>, i: nat)
    requires i < |ops| - 1 && Trusted(keys, ops, i)
    ensures Trusted(keys, ops[..|ops| - 1], i)
  {
    hide WriteFits, TransformFits, Survives, Perform, Run, PlainRun;
    assert ops[..|ops| - 1][..i] == ops[..i];
  }

  /** A permitted read succeeds; it gives the plaintext, as much of it as the buffer takes, exactly
      when the file is plain or the passphrase gives what its key gives over that much. */
  lemma ReadExactly(fs: Fs, keys: Keyring, plain: map<string, seq<Byte>>, user: User, name: string,
                    passphrase: Option<seq<Byte>>, size: nat)
    requires Represents(fs, keys, plain) && size >= 1
    ensures var got := ReadFile(fs, user, name, passphrase, size);
            if Granted(fs.records, user, name, ToRead).None? then got == None
            else
              var text := FirstBytes(plain[name], size - 1);
              && got.Some?
              && (got.value == text <==>
                    (MapOf(fs.records)[name].encrypted ==>
                       StreamFits(KeyOf(keys, name), 0, passphrase, |text|)))
  {
    hide MapOf, StoragePath, Granted, Ciphered, Represents, StreamFits, KeyOf, Xor;
    RecordsOk(fs, keys, plain);
    GrantedIs(fs.records, user, name, ToRead);
    if Granted(fs.records, user, name, ToRead).Some? {
      StandsAt(fs, keys, plain, name);
      var text, key := plain[name], KeyOf(keys, name);
      var first := FirstBytes(text, size - 1);
      XorPrefix(text, key, |first|);
      XorLength(text, key);
      RestoredExactly(first, key, passphrase);
      assert first == text[..|first|];
    }
  }

  lemma XorLength(text: seq<Byte>, key: seq<Byte>)
    requires key != []
    ensures |Xor(text, key)| == |text| && Xor(text, key)[..|text|] == Xor(text, key)
  {
  }

  /** Decrypting what was just encrypted restores the files exactly when the two passphrases'
      keys agree as far as the file goes; so the same passphrase always does. */
  lemma DecryptRestoresExactly(fs: Fs, user: User, name: string, p: seq<Byte>, q: seq<Byte>)
    requires WellFormed(fs.records) && |fs.records| <= REWRITE_LIMIT
    requires Perform(fs, TransformFile(user, name, p, true)).1
    ensures var encrypted := Perform(fs, TransformFile(user, name, p, true)).0;
            var (after, ok) := Perform(encrypted, TransformFile(user, name, q, false));
            && ok
            && (after == fs <==> StreamFits(Sha256Spec.Sha256(p), 0, Some(q), |fs.storage[StoragePath(name)]|))
  {
    hide StoragePath, Granted, SetEncrypted, Xor, Sha256Spec.Sha256, StreamFits, WellFormed;
    var path, k, l := StoragePath(name), Sha256Spec.Sha256(p), Sha256Spec.Sha256(q);
    var bytes := fs.storage[path];
    GrantedStill(fs.records, user, name);
    FlagBack(fs.records, name);
    RestoredExactly(bytes, k, Some(q));
    var once := Xor(bytes, k);
    var encrypted := Fs(SetEncrypted(fs.records, name, true).0, fs.storage[path := once]);
    assert Perform(fs, TransformFile(user, name, p, true)).0 == encrypted;
    var after := Fs(fs.records, encrypted.storage[path := Xor(once, l)]);
    assert Perform(encrypted, TransformFile(user, name, q, false)) == (after, true);
    PutBack(fs.storage, path, once, Xor(once, l));
  }

  lemma PutBack(m: map<string, seq<Byte>>, path: string, once: seq<Byte>, twice: seq<Byte>)
    requires path in m
    ensures m[path := once][path := twice] == m <==> twice == m[path]
  {
    assert m[path := once][path := twice][path] == twice;
  }

  /** Setting the flag leaves the user the access to write. */
  lemma GrantedStill(records: seq<Record>, user: User, name: string)
    requires |records| <= REWRITE_LIMIT && Granted(records, user, name, ToWrite).Some?
    requires !Granted(records, user, name, ToWrite).value.encrypted
    ensures Lookup(records, name).Some? && !Lookup(records, name).value.encrypted
    ensures var g := Granted(SetEncrypted(records, name, true).0, user, name, ToWrite);
            g.Some? && g.value.encrypted
  {
    hide Named, SetEncrypted, SameUpTo;
    FlagSet(records, name, true);
  }

  /** Setting the flag keeps everything else about every record. */
  lemma FlagSet(records: seq<Record>, name: string, flag: bool)
    requires |records| <= REWRITE_LIMIT
    ensures var after := SetEncrypted(records, name, flag).0;
            && |after| == |records|
            && Find(after, name) == Find(records, name)
            && forall i :: 0 <= i < |records| ==>
                 after[i] == if Named(records[i], name) then records[i].(encrypted := flag) else records[i]
  {
    hide SameUpTo;
    UpdateAll(records, name, Update(None, Some(flag)));
    var after := SetEncrypted(records, name, flag).0;
    assert forall i :: 0 <= i < |records| ==> Named(after[i], name) == Named(records[i], name);
    var i, j := Find(after, name), Find(records, name);
    assert i == j;
  }

  lemma FlagBack(records: seq<Record>, name: string)
    requires WellFormed(records) && |records| <= REWRITE_LIMIT
    requires Lookup(records, name).Some? && !Lookup(records, name).value.encrypted
    ensures SetEncrypted(SetEncrypted(records, name, true).0, name, false).0 == records
  {
    hide SameUpTo, SetEncrypted;
    FlagSet(records, name, true);
    var set1 := SetEncrypted(records, name, true).0;
    FlagSet(set1, name, false);
    var at := Find(records, name);
    forall i | 0 <= i < |records| ensures SetEncrypted(set1, name, false).0[i] == records[i] {
      assert RecordOk(records[i]) && RecordOk(records[at]);
      NamedMeans(records[i], name);
      NamedMeans(records[at], name);
    }
  }

  // ----- An encrypted file of one byte -----

  const ALICE := User("alice", "staff")

  function OneByteFile(keys: Keyring, b: Byte): Fs {
    Fs([Record("f", "alice", "staff", "rw-------", true)],
       map[StoragePath("f") := Xor([b], KeyOf(keys, "f"))])
  }

  lemma OneByteStands(keys: Keyring, b: Byte)
    ensures Represents(OneByteFile(keys, b), keys, map["f" := [b]])
    ensures var fs := OneByteFile(keys, b);
            && "f" in MapOf(fs.records) && MapOf(fs.records)["f"].encrypted
            && Granted(fs.records, ALICE, "f", ToWrite).Some? && Granted(fs.records, ALICE, "f", ToRead).Some?
  {
    hide Sha256Spec.Sha256, StoragePath, Xor;
    var fs := OneByteFile(keys, b);
    assert fs.records[0].filename == "f" && Named(fs.records[0], "f");
    PlaceIs(fs.records, 0);
  }

  /** Writing one byte to it keeps it standing for its text exactly when the passphrase given, or
      none, gives the byte that the key gives there. So it fails with no passphrase when the key
      begins with another byte than zero, with a passphrase whose key begins otherwise, and with
      the right passphrase when appending and the first two bytes of the key differ. */
  lemma OneByteWrite(keys: Keyring, b: Byte, c: Byte, passphrase: Option<seq<Byte>>, append: bool)
    ensures var fs, plain := OneByteFile(keys, b), map["f" := [b]];
            var op := WriteFile(ALICE, "f", passphrase, [c], append);
            (Represents(Perform(fs, op).0, keys, PlainStep(fs, plain, op)) <==>
               KeyAt(KeyOf(keys, "f"), if append then 1 else 0) == StreamByte(passphrase, 0))
  {
    hide Represents, MapOf, Sha256Spec.Sha256, Granted, OneByteFile;
    OneByteStands(keys, b);
    var op := WriteFile(ALICE, "f", passphrase, [c], append);
    StepExactly(OneByteFile(keys, b), keys, map["f" := [b]], op);
  }

  /** Reading it gives its text exactly when the passphrase, or none, gives the key's first byte. */
  lemma OneByteRead(keys: Keyring, b: Byte, passphrase: Option<seq<Byte>>)
    ensures ReadFile(OneByteFile(keys, b), ALICE, "f", passphrase, 512) == Some([b])
       <==> KeyAt(KeyOf(keys, "f"), 0) == StreamByte(passphrase, 0)
  {
    hide Represents, MapOf, Sha256Spec.Sha256, Granted, OneByteFile, ReadFile;
    OneByteStands(keys, b);
    ReadExactly(OneByteFile(keys, b), keys, map["f" := [b]], ALICE, "f", passphrase, 512);
    var key := KeyOf(keys, "f");
    assert StreamFits(key, 0, passphrase, 1) <==> KeyAt(key, 0 + 0) == StreamByte(passphrase, 0);
  }

  /** Every file under the passphrase "abc". */
  const ABC_KEYS: Keyring := (name: string) => Sha256Example.ABC

  /** So under the passphrase "abc", whose key begins with ba and 78: written without a passphrase,
      or appended to with the right one, the file no longer stands for its text; read without one,
      it gives another byte. */
  lemma FailingRuns(b: Byte, c: Byte)
    ensures var fs, plain := OneByteFile(ABC_KEYS, b), map["f" := [b]];
            var blank := WriteFile(ALICE, "f", None, [c], false);
            var appended := WriteFile(ALICE, "f", Some(Sha256Example.ABC), [c], true);
            && Represents(fs, ABC_KEYS, plain)
            && !Represents(Perform(fs, blank).0, ABC_KEYS, PlainStep(fs, plain, blank))
            && !Represents(Perform(fs, appended).0, ABC_KEYS, PlainStep(fs, plain, appended))
            && ReadFile(fs, ALICE, "f", None, 512) != Some([b])
  {
    hide Represents, OneByteFile, Perform, PlainStep, ReadFile, Sha256Spec.Sha256;
    OneByteStands(ABC_KEYS, b);
    OneByteWrite(ABC_KEYS, b, c, None, false);
    OneByteWrite(ABC_KEYS, b, c, Some(Sha256Example.ABC), true);
    OneByteRead(ABC_KEYS, b, None);
    Sha256Example.DigestOfAbc();
  }

  // ----- The operations in place -----

  class FileSystem {
    const meta: MetaFile
    var storage: map<string, seq<Byte>>

    constructor ()
      ensures Value() == EMPTY && fresh(meta)
    {
      meta := new MetaFile();
      storage := map[];
    }

    function Value(): Fs
      reads this, meta
    {
      Fs(meta.records, storage)
    }

    method FsCreateFile(user: User, name: string, perms: string, content: seq<Byte>) returns (ok: bool)
      modifies this`storage, meta
      ensures (Value(), ok) == Perform(old(Value()), CreateFile(user, name, perms, content))
    {
      hide StoragePath, Create;
      ok := meta.CreateFileMeta(name, user.name, user.group, perms);
      if ok {
        storage := storage[StoragePath(name) := content];
      } else {
        CreateRefused(old(meta.records), name, user.name, user.group, perms);
      }
    }

    method FsReadFile(user: User, name: string, passphrase: Option<seq<Byte>>, size: nat)
      returns (content: Option<seq<Byte>>)
      requires size >= 1
      ensures content == ReadFile(Value(), user, name, passphrase, size)
    {
      hide StoragePath, Permitted, Xor, Sha256Spec.Sha256;
      var found := meta.FindFileMeta(name);
      if found.None? || !MayAccess(user, found.value, ToRead) {
        return None;
      }
      var path := StoragePath(name);
      if path !in storage {
        return None;
      }
      var bytes := FirstBytes(storage[path], size - 1);
      if found.value.encrypted && passphrase.Some? {
        bytes := XorBytes(bytes, passphrase.value);
      }
      return Some(bytes);
    }

    method FsWriteFile(user: User, name: string, passphrase: Option<seq<Byte>>, content: seq<Byte>, append: bool)
      returns (ok: bool)
      modifies this`storage
      ensures (Value(), ok) == Perform(old(Value()), WriteFile(user, name, passphrase, content, append))
    {
      hide StoragePath, Permitted, Xor, Sha256Spec.Sha256;
      var found := meta.FindFileMeta(name);
      if found.None? || !MayAccess(user, found.value, ToWrite) {
        return false;
      }
      var path, out := StoragePath(name), content;
      if found.value.encrypted && passphrase.Some? {
        out := XorBytes(out, passphrase.value);
      }
      if append && path in storage {
        out := storage[path] + out;
      }
      assert [] + out == out;
      storage := storage[path := out];
      return true;
    }

    method FsDeleteFile(user: User, name: string) returns (ok: bool)
      modifies this`storage, meta
      ensures (Value(), ok) == Perform(old(Value()), DeleteFile(user, name))
    {
      hide StoragePath, Permitted, Delete;
      var found := meta.FindFileMeta(name);
      if found.None? || !MayAccess(user, found.value, ToWrite) {
        return false;
      }
      storage := storage - {StoragePath(name)};
      var _ := meta.DeleteFileMeta(name);
      return true;
    }

    /** Encrypts or decrypts: the same cipher, from the opposite flag. */
    method Transform(user: User, name: string, phrase: seq<Byte>, encrypt: bool) returns (ok: bool)
      modifies this`storage, meta
      ensures (Value(), ok) == Perform(old(Value()), TransformFile(user, name, phrase, encrypt))
    {
      hide StoragePath, Permitted, SetEncrypted, Xor, Sha256Spec.Sha256;
      var found := meta.FindFileMeta(name);
      if found.None? || !MayAccess(user, found.value, ToWrite) || found.value.encrypted == encrypt {
        return false;
      }
      var path := StoragePath(name);
      if path !in storage {
        return false;
      }
      var bytes := XorBytes(storage[path], phrase);
      storage := storage[path := bytes];
      var _ := meta.SetEncryptedFlag(name, encrypt);
      return true;
    }
  }

  lemma CreateRefused(records: seq<Record>, name: string, owner: string, group: string, perms: string)
    requires !Create(records, name, owner, group, perms).1
    ensures Create(records, name, owner, group, perms).0 == records
  {
  }

  /** Copies the bytes into a buffer and ciphers it in place. */
  method XorBytes(bytes: seq<Byte>, passphrase: seq<Byte>) returns (r: seq<Byte>)
    ensures r == Xor(bytes, Sha256Spec.Sha256(passphrase))
  {
    hide Xor, Sha256Spec.Sha256;
    var buffer := new Byte[|bytes|](i requires 0 <= i < |bytes| => bytes[i]);
    assert buffer[..|bytes|] == bytes;
    XorInPlace(buffer, |bytes|, passphrase);
    r := buffer[..|bytes|];
  }
}
