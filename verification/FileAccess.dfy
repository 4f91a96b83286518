/** Who may do what with a file, from the texts with which it was created: stated with the
    permission letters themselves. */
module FileAccess {
  import opened Options
  import opened Bytes
  import opened CStrings
  import opened FileMeta
  import opened XorCipher
  import opened FileOps
  import Sha256Example
  import Sha256Spec

  /** The owner's, the group's or everybody's part of the permissions holds letter k of "rwx". */
  predicate Letter(owner: string, group: string, perms: string, user: User, k: nat)
    requires |perms| == 9 && k < 3
  {
    var letter := "rwx"[k];
    if user.name == owner then perms[k] == letter
    else if user.group == group then perms[3 + k] == letter
    else perms[6 + k] == letter
  }

  /** What a field of 32 characters keeps of a name. */
  function Kept(name: string): string {
    if |name| < 32 then name else name[..31]
  }

  // ----- Files of any history -----

  ghost predicate MayDo(fs: Fs, user: User, name: string, k: nat)
    requires WellFormed(fs.records) && k < 3
  {
    var m := MapOf(fs.records);
    name in m && (RecordThere(fs.records, name); Letter(m[name].owner, m[name].group, m[name].permissions, user, k))
  }

  lemma RecordThere(records: seq<Record>, name: string)
    requires WellFormed(records) && name in MapOf(records)
    ensures RecordOk(MapOf(records)[name]) && |MapOf(records)[name].permissions| == 9
    ensures MapOf(records)[name].filename == name
  {
    var i := Place(records, name);
    assert RecordOk(records[i]);
  }

  lemma GrantedExactly(fs: Fs, user: User, name: string, access: Access)
    requires WellFormed(fs.records)
    ensures Granted(fs.records, user, name, access).Some? <==> MayDo(fs, user, name, Offset(access))
    ensures var g := Granted(fs.records, user, name, access);
            g.Some? ==> name in MapOf(fs.records) && g.value == MapOf(fs.records)[name]
  {
    hide MapOf, Permitted, WellFormed;
    LookupIsMap(fs.records, name);
    if name in MapOf(fs.records) {
      RecordThere(fs.records, name);
      PermittedMeans(user.name, user.group, MapOf(fs.records)[name], access);
    }
  }

  /** A file is read exactly when the part of its permissions that applies to the user holds 'r',
      written and deleted exactly when it holds 'w', and encrypted or decrypted exactly when it
      holds 'w', the flag is the opposite one and the file has been stored. */
  lemma AccessExactly(fs: Fs, user: User, name: string, phrase: Option<seq<Byte>>, size: nat,
                      content: seq<Byte>, append: bool, key: seq<Byte>, encrypt: bool)
    requires WellFormed(fs.records) && size >= 1
    ensures ReadFile(fs, user, name, phrase, size).Some? <==>
              MayDo(fs, user, name, 0) && "storage/" + name in fs.storage
    ensures Perform(fs, WriteFile(user, name, phrase, content, append)).1 <==> MayDo(fs, user, name, 1)
    ensures Perform(fs, DeleteFile(user, name)).1 <==> MayDo(fs, user, name, 1)
    ensures Perform(fs, TransformFile(user, name, key, encrypt)).1 <==>
              MayDo(fs, user, name, 1) && MapOf(fs.records)[name].encrypted != encrypt
              && "storage/" + name in fs.storage
  {
    hide Granted, MayDo, MapOf, WellFormed, StoragePath, Ciphered, Delete, SetEncrypted;
    GrantedExactly(fs, user, name, ToRead);
    GrantedExactly(fs, user, name, ToWrite);
    if Granted(fs.records, user, name, ToRead).Some? || Granted(fs.records, user, name, ToWrite).Some? {
      RecordThere(fs.records, name);
      ShortPath(name);
    }
  }

  lemma ShortPath(name: string)
    requires |name| < 64
    ensures StoragePath(name) == "storage/" + name
  {
    PathOf(name);
  }

  /** A file is stored in the directory under its name, the path cut to 95 characters. */
  lemma PathOf(name: string)
    ensures var path := "storage/" + name; StoragePath(name) == if |path| < 96 then path else path[..95]
  {
    var dir := "storage" + "/";
    assert dir == "storage/";
  }

  // ----- A file just created -----

  /** A file is created exactly when each of the nine places of its permissions holds its own
      letter or a dash and no record has its name. */
  lemma CreateExactly(fs: Fs, owner: User, name: string, perms: string, content: seq<Byte>)
    requires WellFormed(fs.records)
    ensures Perform(fs, CreateFile(owner, name, perms, content)).1 <==>
              && |perms| == 9
              && (forall i :: 0 <= i < 9 ==> perms[i] == '-' || perms[i] == "rwxrwxrwx"[i])
              && name !in MapOf(fs.records)
  {
    hide MapOf, WellFormed, StoragePath;
    LookupIsMap(fs.records, name);
  }

  /** The record of a created file, under the name it was given, and what is stored for it. */
  lemma CreatedRecord(fs: Fs, owner: User, name: string, perms: string, content: seq<Byte>)
    requires Perform(fs, CreateFile(owner, name, perms, content)).1
    ensures |perms| == 9 && ValidPerms(perms)
    ensures var after := Perform(fs, CreateFile(owner, name, perms, content)).0;
            && (|name| >= 64 ==> Lookup(after.records, name) == None)
            && (|name| < 64 ==>
                  && Lookup(after.records, name) ==
                       Some(Record(name, Kept(owner.name), Kept(owner.group), perms, false))
                  && after.storage == fs.storage["storage/" + name := content])
  {
    hide SameUpTo, ValidPerms, StoragePath;
    var records, r := fs.records, NewRecord(name, owner.name, owner.group, perms);
    LastFound(records, r, name);
    if |name| < 64 {
      ShortPath(name);
      NamedMeans(r, name);
    } else {
      LongName(r, name);
    }
    assert ValidPerms(perms);
    NinePlaces(perms);
  }

  lemma NinePlaces(perms: string)
    requires ValidPerms(perms)
    ensures |perms| == 9
  {
  }

  lemma LongName(r: Record, name: string)
    requires |r.filename| < 64 <= |name|
    ensures !Named(r, name)
  {
    SameShort(name, r.filename, 64);
  }

  lemma LastFound(records: seq<Record>, r: Record, name: string)
    requires Lookup(records, name).None?
    ensures Lookup(records + [r], name) == if Named(r, name) then Some(r) else None
  {
    hide Named;
    var all := records + [r];
    assert forall i :: 0 <= i < |records| ==> all[i] == records[i];
    assert all[|records|] == r;
    var i := Find(all, name);
    assert i >= |records|;
  }

  lemma GrantedByRecord(records: seq<Record>, user: User, name: string, access: Access, owner: User, perms: string)
    requires ValidPerms(perms) && |perms| == 9
    requires Lookup(records, name) == Some(Record(name, Kept(owner.name), Kept(owner.group), perms, false))
    ensures Granted(records, user, name, access).Some? <==>
              Letter(Kept(owner.name), Kept(owner.group), perms, user, Offset(access))
  {
    hide Permitted, ValidPerms;
    var r := Record(name, Kept(owner.name), Kept(owner.group), perms, false);
    PermittedMeans(user.name, user.group, r, access);
    assert Granted(records, user, name, access).Some? <==> MayAccess(user, r, access);
  }

  /** Of a file just created, a user reads what the buffer takes exactly when 'r' stands in the
      part of its permissions that applies to him, and writes, deletes or encrypts it exactly when
      'w' stands there; nobody decrypts it. The owner's part applies to users with the name that
      the owner field kept, the group's to those with the group that its field kept. A file whose
      name was cut is found by nobody under its name. */
  lemma CreatedAccess(fs: Fs, owner: User, name: string, perms: string, text: seq<Byte>, user: User,
                      phrase: Option<seq<Byte>>, size: nat, content: seq<Byte>, append: bool, key: seq<Byte>)
    requires Perform(fs, CreateFile(owner, name, perms, text)).1 && size >= 1
    ensures |perms| == 9
    ensures var after := Perform(fs, CreateFile(owner, name, perms, text)).0;
            var mayRead := |name| < 64 && Letter(Kept(owner.name), Kept(owner.group), perms, user, 0);
            var mayWrite := |name| < 64 && Letter(Kept(owner.name), Kept(owner.group), perms, user, 1);
            && ReadFile(after, user, name, phrase, size) ==
                 (if mayRead then Some(if |text| < size then text else text[..size - 1]) else None)
            && Perform(after, WriteFile(user, name, phrase, content, append)).1 == mayWrite
            && Perform(after, DeleteFile(user, name)).1 == mayWrite
            && Perform(after, TransformFile(user, name, key, true)).1 == mayWrite
            && !Perform(after, TransformFile(user, name, key, false)).1
  {
    hide StoragePath, Ciphered, Delete, SetEncrypted, ValidPerms, Create, Lookup, Permitted, MayAccess, Kept;
    var after := Perform(fs, CreateFile(owner, name, perms, text)).0;
    CreatedRecord(fs, owner, name, perms, text);
    if |name| < 64 {
      ShortPath(name);
      GrantedByRecord(after.records, user, name, ToRead, owner, perms);
      GrantedByRecord(after.records, user, name, ToWrite, owner, perms);
    }
  }

  /** The creator of a file that only its owner may read can read it exactly when neither the name
      of the file nor his own was cut. */
  lemma OwnFile(fs: Fs, owner: User, name: string, text: seq<Byte>, size: nat)
    requires Perform(fs, CreateFile(owner, name, "rw-------", text)).1 && size > |text|
    ensures var after := Perform(fs, CreateFile(owner, name, "rw-------", text)).0;
            ReadFile(after, owner, name, None, size) ==
              if |name| < 64 && |owner.name| < 32 then Some(text) else None
  {
    hide Perform, ReadFile;
    CreatedAccess(fs, owner, name, "rw-------", text, owner, None, size, [], false, []);
  }

  /** Encrypting a file with a passphrase stores its bytes XORed with the passphrase's hash, repeated
      every 32 bytes, and decrypting it with the same one brings them back. */
  lemma EncryptedBytes(fs: Fs, owner: User, name: string, text: seq<Byte>, key: seq<Byte>)
    requires Perform(fs, CreateFile(owner, name, "rw-------", text)).1 && |name| < 64 && |owner.name| < 32
    ensures var made := Perform(fs, CreateFile(owner, name, "rw-------", text)).0;
            var (after, ok) := Perform(made, TransformFile(owner, name, key, true));
            && ok && "storage/" + name in after.storage
            && |after.storage["storage/" + name]| == |text|
            && forall i :: 0 <= i < |text| ==>
                 after.storage["storage/" + name][i] ^ text[i] == Sha256Spec.Sha256(key)[i % 32]
  {
    hide StoragePath, SetEncrypted, Create, Xor, MayAccess, Sha256Spec.Sha256;
    var made := Perform(fs, CreateFile(owner, name, "rw-------", text)).0;
    CreatedAccess(fs, owner, name, "rw-------", text, owner, None, 1, [], false, key);
    CreatedRecord(fs, owner, name, "rw-------", text);
    ShortPath(name);
    var hash := Sha256Spec.Sha256(key);
    forall i | 0 <= i < |text| ensures Xor(text, hash)[i] ^ text[i] == hash[i % 32] {
      XorShowsKey(text, hash, i);
    }
  }

  /** Two zero bytes encrypted under the passphrase "abc" are stored as ba 78. */
  lemma ZerosUnderAbc(fs: Fs, owner: User, name: string)
    requires Perform(fs, CreateFile(owner, name, "rw-------", [0, 0])).1 && |name| < 64 && |owner.name| < 32
    ensures var made := Perform(fs, CreateFile(owner, name, "rw-------", [0, 0])).0;
            var after := Perform(made, TransformFile(owner, name, [0x61, 0x62, 0x63], true)).0;
            "storage/" + name in after.storage && after.storage["storage/" + name] == [0xba, 0x78]
  {
    hide Perform, Sha256Spec.Sha256;
    EncryptedBytes(fs, owner, name, [0, 0], [0x61, 0x62, 0x63]);
    Sha256Example.DigestOfAbc();
    var made := Perform(fs, CreateFile(owner, name, "rw-------", [0, 0])).0;
    var stored := Perform(made, TransformFile(owner, name, [0x61, 0x62, 0x63], true)).0.storage["storage/" + name];
    assert stored[0] ^ 0 == 0xba && stored[1] ^ 0 == 0x78;
  }

  // ----- What operations leave to be read -----

  /** What was written to a plain file is what anybody who may read it then reads, after what was
      there before when it was appended. */
  lemma WrittenIsRead(fs: Fs, writer: User, name: string, phrase: Option<seq<Byte>>, content: seq<Byte>,
                      append: bool, reader: User, given: Option<seq<Byte>>, size: nat)
    requires WellFormed(fs.records) && "storage/" + name in fs.storage
    requires MayDo(fs, writer, name, 1) && MayDo(fs, reader, name, 0) && !MapOf(fs.records)[name].encrypted
    requires var before := fs.storage["storage/" + name]; size > |before| + |content|
    ensures var after := Perform(fs, WriteFile(writer, name, phrase, content, append)).0;
            ReadFile(after, reader, name, given, size) ==
              Some(if append then fs.storage["storage/" + name] + content else content)
  {
    hide Granted, MapOf, WellFormed, StoragePath, Ciphered, Letter;
    GrantedExactly(fs, writer, name, ToWrite);
    GrantedExactly(fs, reader, name, ToRead);
    RecordThere(fs.records, name);
    ShortPath(name);
    assert [] + content == content;
  }

  /** Nobody reads a deleted file, however many records there are. */
  lemma DeletedIsGone(fs: Fs, user: User, name: string, reader: User, phrase: Option<seq<Byte>>, size: nat)
    requires WellFormed(fs.records) && MayDo(fs, user, name, 1) && size >= 1
    ensures var after := Perform(fs, DeleteFile(user, name)).0;
            && "storage/" + name !in after.storage
            && Lookup(after.records, name) == None
            && ReadFile(after, reader, name, phrase, size) == None
            && (|fs.records| <= 1024 ==> MapOf(after.records) == MapOf(fs.records) - {name})
  {
    hide Granted, MapOf, WellFormed, StoragePath, Letter, Rewrite;
    GrantedExactly(fs, user, name, ToWrite);
    RecordThere(fs.records, name);
    ShortPath(name);
    NoneNamed(fs.records, name);
    var after := Perform(fs, DeleteFile(user, name)).0;
    assert Granted(after.records, reader, name, ToRead) == None by { NotGranted(after.records, reader, name); }
    if |fs.records| <= 1024 {
      RemoveRefines(fs.records, name);
    }
  }

  lemma NotGranted(records: seq<Record>, user: User, name: string)
    requires Lookup(records, name) == None
    ensures Granted(records, user, name, ToRead) == None
  {
  }

  lemma NoneNamed(records: seq<Record>, name: string)
    ensures Lookup(Delete(records, name).0, name) == None
  {
    hide Named;
    RemoveAll(Loaded(records), name);
    OthersUnnamed(Loaded(records), name);
  }

  lemma {:induction false} OthersUnnamed(records: seq<Record>, name: string)
    ensures forall i :: 0 <= i < |Others(records, name)| ==> !Named(Others(records, name)[i], name)
  {
    if records != [] {
      hide Named;
      OthersUnnamed(records[..|records| - 1], name);
    }
  }

  /** Permissions can be changed by anybody, exactly to valid ones and for a file among the first 1024
      records; from then on they are the ones that decide, for the owner and group of before. */
  lemma ChmodDecides(fs: Fs, name: string, perms: string, user: User, k: nat)
    requires WellFormed(fs.records) && k < 3
    ensures var (after, ok) := Perform(fs, ChmodFile(name, perms));
            var first := if |fs.records| <= 1024 then fs.records else fs.records[..1024];
            && WellFormed(after.records)
            && (ok <==> && |perms| == 9
                        && (forall i :: 0 <= i < 9 ==> perms[i] == '-' || perms[i] == "rwxrwxrwx"[i])
                        && name in MapOf(first))
            && (ok ==> var r := MapOf(first)[name];
                       MayDo(after, user, name, k) <==> Letter(r.owner, r.group, perms, user, k))
            && (!ok && |fs.records| <= 1024 ==> after == fs)
  {
    hide MapOf, WellFormed, Rewrite, Letter;
    var first := Loaded(fs.records);
    FirstWellFormed(fs.records);
    if ValidPerms(perms) {
      UpdateRefines(first, name, Update(Some(perms), None));
      RewriteFirst(fs.records, name, Update(Some(perms), None));
    }
    hide ValidPerms;
    var (after, ok) := Perform(fs, ChmodFile(name, perms));
    if !ok && |fs.records| <= 1024 {
      Refused(fs, ChmodFile(name, perms));
    }
  }

  lemma FirstWellFormed(records: seq<Record>)
    requires WellFormed(records)
    ensures WellFormed(Loaded(records)) && |Loaded(records)| <= 1024
  {
    hide RecordOk;
  }

  lemma RewriteFirst(records: seq<Record>, name: string, change: Change)
    ensures Rewrite(records, name, change) == Rewrite(Loaded(records), name, change)
  {
    hide RewriteAll;
    assert Loaded(Loaded(records)) == Loaded(records);
  }
}
