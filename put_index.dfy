/** PutIndexCommand: the cluster command that adds an index definition to a
    database record. It refuses a name that differs from an existing index
    name only by letter case, and reads the record's global rolling-deployment
    setting. */
module PutIndex {
  import opened Wrappers
  import opened Text

  /** An index definition; only its name takes part in the rules modelled. */
  datatype IndexDefinition = IndexDefinition(name: string)

  /** The parts of a database record the command reads: the indexes keyed by
      name, in insertion order, and the string settings. */
  datatype DatabaseRecord = DatabaseRecord(indexes: seq<(string, IndexDefinition)>, settings: map<string, string>)

  /** The command's own fields. */
  datatype PutIndexCommand = PutIndexCommand(definition: IndexDefinition, source: string, createdAt: int, revisionsToKeep: int)

  /** The arguments handed to DatabaseRecord.AddIndex. */
  datatype AddIndexCall = AddIndexCall(definition: IndexDefinition, source: string, createdAt: int, etag: int,
                                       revisionsToKeep: int, globalRollingSetting: bool)

  datatype InvalidOperationException = InvalidOperationException(message: string)

  /** RachisApplyException wraps whatever the update threw. */
  datatype RachisApplyException = RachisApplyException(message: string, inner: InvalidOperationException)

  function CollisionMessage(name: string): string {
    "Can not add index: " + name + " because an index with the same name but different casing already exist"
  }

  // ---------------------------------------------------------------------
  // bool.TryParse
  // ---------------------------------------------------------------------

  /** The characters bool.TryParse trims from both ends. */
  predicate Trimmable(c: char) {
    IsWhiteSpace(c) || c == '\0'
  }

  predicate AllTrimmable(s: string) {
    forall i :: 0 <= i < |s| ==> Trimmable(s[i])
  }

  /** The longest suffix that does not start with a trimmable character. */
  function TrimStart(s: string): (r: string)
    ensures |r| <= |s| && r == s[|s| - |r|..]
    ensures r == [] || !Trimmable(r[0])
    ensures AllTrimmable(s[..|s| - |r|])
  {
    if s == [] || !Trimmable(s[0]) then s
    else
      var r := TrimStart(s[1..]);
      assert s[1..][..|s| - 1 - |r|] == s[1..|s| - |r|];
      r
  }

  /** The longest prefix that does not end with a trimmable character. */
  function TrimEnd(s: string): (r: string)
    ensures |r| <= |s| && r == s[..|r|]
    ensures r == [] || !Trimmable(r[|r| - 1])
    ensures AllTrimmable(s[|r|..])
  {
    if s == [] || !Trimmable(s[|s| - 1]) then s
    else
      var r := TrimEnd(s[..|s| - 1]);
      assert s[|r|..] == s[..|s| - 1][|r|..] + [s[|s| - 1]];
      r
  }

  /** TrimWhiteSpaceAndNull. */
  function Trim(s: string): string {
    TrimEnd(TrimStart(s))
  }

  /** bool.TryParse: "True" or "False" in any letter case, once the
      surrounding white space and NUL characters are trimmed. */
  function TryParseBool(s: string): Option<bool> {
    var t := Trim(s);
    if EqualsIgnoreCase(t, "True") then Some(true)
    else if EqualsIgnoreCase(t, "False") then Some(false)
    else None
  }

  /** bool.ToString. */
  function BoolText(b: bool): string {
    if b then "True" else "False"
  }

  /** Trimming the front drops exactly a trimmable padding. */
  lemma {:induction false} TrimStartPadding(pre: string, u: string)
    requires AllTrimmable(pre) && (u == [] || !Trimmable(u[0]))
    ensures TrimStart(pre + u) == u
  {
    if pre == [] {
      assert pre + u == u;
    } else {
      assert (pre + u)[0] == pre[0];
      assert (pre + u)[1..] == pre[1..] + u;
      TrimStartPadding(pre[1..], u);
    }
  }

  /** Trimming the back drops exactly a trimmable padding. */
  lemma {:induction false} TrimEndPadding(u: string, post: string)
    requires AllTrimmable(post) && (u == [] || !Trimmable(u[|u| - 1]))
    ensures TrimEnd(u + post) == u
  {
    if post == [] {
      assert u + post == u;
    } else {
      assert (u + post)[|u + post| - 1] == post[|post| - 1];
      assert (u + post)[..|u + post| - 1] == u + post[..|post| - 1];
      TrimEndPadding(u, post[..|post| - 1]);
    }
  }

  /** Trimming a padded word gives back the word. */
  lemma TrimPadding(pre: string, word: string, post: string)
    requires AllTrimmable(pre) && AllTrimmable(post)
    requires word != [] && !Trimmable(word[0]) && !Trimmable(word[|word| - 1])
    ensures Trim(pre + word + post) == word
  {
    assert pre + word + post == pre + (word + post);
    TrimStartPadding(pre, word + post);
    TrimEndPadding(word, post);
  }

  /** Parsing bool.ToString's text, with any padding, gives the value back. */
  lemma ParseBoolRoundTrip(b: bool, pre: string, post: string)
    requires AllTrimmable(pre) && AllTrimmable(post)
    ensures TryParseBool(pre + BoolText(b) + post) == Some(b)
  {
    TrimPadding(pre, BoolText(b), post);
  }

  // ---------------------------------------------------------------------
  // The command
  // ---------------------------------------------------------------------

  /** GetGlobalRollingSetting: the parsed value of the rolling setting, false
      when it is absent or does not parse. The key's text is the parameter
      `rollingKey`. */
  function GetGlobalRollingSetting(record: DatabaseRecord, rollingKey: string): (r: bool)
    ensures rollingKey !in record.settings ==> !r
    ensures rollingKey in record.settings && TryParseBool(record.settings[rollingKey]).None? ==> !r
    ensures rollingKey in record.settings && TryParseBool(record.settings[rollingKey]).Some? ==>
      r == TryParseBool(record.settings[rollingKey]).value
  {
    if rollingKey !in record.settings then false
    else
      match TryParseBool(record.settings[rollingKey])
      case None => false
      case Some(result) => result
  }

  /** A setting written as bool.ToString (with any padding) reads back. */
  lemma RollingSettingReadsBack(record: DatabaseRecord, rollingKey: string, b: bool, pre: string, post: string)
    requires AllTrimmable(pre) && AllTrimmable(post)
    ensures GetGlobalRollingSetting(record.(settings := record.settings[rollingKey := pre + BoolText(b) + post]), rollingKey) == b
  {
    ParseBoolRoundTrip(b, pre, post);
  }

  /** The name clashes with an existing index name up to letter case while no
      index is keyed by exactly that name. */
  predicate Collides(record: DatabaseRecord, name: string) {
    && (exists i :: 0 <= i < |record.indexes| && EqualsIgnoreCase(record.indexes[i].1.name, name))
    && forall i :: 0 <= i < |record.indexes| ==> record.indexes[i].0 != name
  }

  /** Dictionary.TryGetValue's found flag. */
  function HasKey(indexes: seq<(string, IndexDefinition)>, key: string): (r: bool)
    ensures r <==> exists i :: 0 <= i < |indexes| && indexes[i].0 == key
  {
    if indexes == [] then false
    else indexes[0].0 == key || HasKey(indexes[1..], key)
  }

  /** The case-insensitive set of index names, each kept upper-cased. */
  function IndexNames(indexes: seq<(string, IndexDefinition)>): set<string> {
    set i | 0 <= i < |indexes| :: Fold(indexes[i].1.name)
  }

  /** The first statement of UpdateDatabaseRecord: the names of all indexes
      in a set that compares them ignoring case. */
  method BuildIndexNames(indexes: seq<(string, IndexDefinition)>) returns (indexNames: set<string>)
    ensures indexNames == IndexNames(indexes)
  {
    indexNames := {};
    for k := 0 to |indexes|
      invariant indexNames == set i | 0 <= i < k :: Fold(indexes[i].1.name)
    {
      indexNames := indexNames + {Fold(indexes[k].1.name)};
    }
  }

  /** The name is in the set exactly when some index name matches it up to
      letter case. */
  lemma FoldedMember(indexes: seq<(string, IndexDefinition)>, name: string)
    ensures Fold(name) in IndexNames(indexes)
      <==> exists i :: 0 <= i < |indexes| && EqualsIgnoreCase(indexes[i].1.name, name)
  {
    forall i | 0 <= i < |indexes|
      ensures Fold(indexes[i].1.name) == Fold(name) <==> EqualsIgnoreCase(indexes[i].1.name, name)
    {
      EqualsIgnoreCaseIsFoldEquality(indexes[i].1.name, name);
    }
  }

  /** The test the code makes is the collision rule. */
  lemma CollisionTest(record: DatabaseRecord, name: string)
    ensures (Fold(name) in IndexNames(record.indexes) && !HasKey(record.indexes, name)) <==> Collides(record, name)
  {
    FoldedMember(record.indexes, name);
  }

  /** UpdateDatabaseRecord: builds the case-insensitive set of index names,
      refuses a collision, and otherwise passes the definition to AddIndex
      with the rolling setting. The record's AddIndex is not part of this
      model: the method returns the call's arguments. */
  method UpdateDatabaseRecord(cmd: PutIndexCommand, record: DatabaseRecord, etag: int, rollingKey: string)
    returns (r: Result<AddIndexCall, RachisApplyException>)
    ensures r.Failure? <==> Collides(record, cmd.definition.name)
    ensures r.Failure? ==> r.error == RachisApplyException("Failed to update index",
      InvalidOperationException(CollisionMessage(cmd.definition.name)))
    ensures r.Success? ==> r.value == AddIndexCall(cmd.definition, cmd.source, cmd.createdAt, etag,
      cmd.revisionsToKeep, GetGlobalRollingSetting(record, rollingKey))
    ensures HasKey(record.indexes, cmd.definition.name) ==> r.Success?
    ensures (forall i :: 0 <= i < |record.indexes| ==> !EqualsIgnoreCase(record.indexes[i].1.name, cmd.definition.name))
      ==> r.Success?
  {
    var indexNames := BuildIndexNames(record.indexes);
    var name := cmd.definition.name;
    var added := Fold(name) !in indexNames;
    indexNames := indexNames + {Fold(name)};
    CollisionTest(record, name);
    if !added && !HasKey(record.indexes, name) {
      return Failure(RachisApplyException("Failed to update index", InvalidOperationException(CollisionMessage(name))));
    }
    var globalRollingSetting := GetGlobalRollingSetting(record, rollingKey);
    return Success(AddIndexCall(cmd.definition, cmd.source, cmd.createdAt, etag, cmd.revisionsToKeep, globalRollingSetting));
  }

  /** No two indexes share a key, as in the record's dictionary. */
  predicate UniqueNames(indexes: seq<(string, IndexDefinition)>) {
    forall i, j :: 0 <= i < j < |indexes| ==> indexes[i].0 != indexes[j].0
  }

  /** Indexes[name] = definition, the write AddIndex makes: the entry keyed
      by the name is overwritten in place, or a new one is appended. */
  function SetIndex(indexes: seq<(string, IndexDefinition)>, def: IndexDefinition): (r: seq<(string, IndexDefinition)>)
    ensures forall key :: HasKey(r, key) <==> (HasKey(indexes, key) || key == def.name)
    ensures forall i :: 0 <= i < |indexes| && indexes[i].0 != def.name ==> indexes[i] in r
    ensures UniqueNames(indexes) ==> UniqueNames(r)
    ensures UniqueNames(indexes) ==> forall i :: 0 <= i < |r| && r[i].0 == def.name ==> r[i].1 == def
  {
    if indexes == [] then [(def.name, def)]
    else if indexes[0].0 == def.name then
      assert forall j :: 1 <= j < |indexes| ==> indexes[1..][j - 1] == indexes[j];
      [(def.name, def)] + indexes[1..]
    else
      var rest := SetIndex(indexes[1..], def);
      assert forall j :: 1 <= j < |indexes| ==> indexes[1..][j - 1] == indexes[j];
      assert UniqueNames(indexes) ==> UniqueNames(indexes[1..]) && !HasKey(rest, indexes[0].0);
      [indexes[0]] + rest
  }

  /** Once AddIndex has stored the definition under its name, putting any
      definition under that exact name again is allowed, and the record
      stays a dictionary holding the new definition. */
  lemma ReputAfterAddIsAllowed(record: DatabaseRecord, def: IndexDefinition, other: IndexDefinition)
    requires other.name == def.name
    ensures !Collides(record.(indexes := SetIndex(record.indexes, def)), other.name)
    ensures UniqueNames(record.indexes) ==> UniqueNames(SetIndex(record.indexes, def))
  {
    assert HasKey(SetIndex(record.indexes, def), other.name);
  }

  /** A name clashes exactly when its differently cased twin would, as long
      as neither is itself a key. */
  lemma CollisionIgnoresCase(record: DatabaseRecord, a: string, b: string)
    requires EqualsIgnoreCase(a, b)
    requires !HasKey(record.indexes, a) && !HasKey(record.indexes, b)
    ensures Collides(record, a) <==> Collides(record, b)
  {
    EqualsIgnoreCaseIsFoldEquality(a, b);
    forall i | 0 <= i < |record.indexes|
      ensures EqualsIgnoreCase(record.indexes[i].1.name, a) <==> EqualsIgnoreCase(record.indexes[i].1.name, b)
    {
      EqualsIgnoreCaseIsFoldEquality(record.indexes[i].1.name, a);
      EqualsIgnoreCaseIsFoldEquality(record.indexes[i].1.name, b);
    }
  }
}
