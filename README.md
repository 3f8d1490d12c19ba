# RavenDB replication, certificate and configuration rules in Dafny

This project is a Dafny model of several small rule sets from the RavenDB server. Each rule set comes with proofs about it.

- **Change vectors** (`ReplicationUtils`). A change vector is an array of `(DbId, Etag)` entries. The model covers:
  - bumping one node's etag in place, or appending it;
  - the write-time helper;
  - the first-match etag lookup;
  - the `DbId:Etag;` text form of an array and of a dictionary;
  - the last-wins conversion to a dictionary;
  - the search for an active outgoing destination;
  - the pairwise and multi-way merges;
  - the shape of the conflict report.

  Each method is proved against a specification function (`Lookup`, `Bump`, `Format`, `PairwiseMerge`, `Credit`). The specification functions are in turn related to the textbook per-node-maximum merge (`ChangeVectors.Merge`, `ChangeVectors.MergeAll`) and to a parser of the text form (`ChangeVectorText.Parse`).
- **Conflict listeners** (`ConflictListener`, from the RavenDB_3435 issue test).
  - The conflict listener keeps the first of the latest-modified members and strips four metadata keys from it.
  - The store listener stamps the last-modified time into a document's metadata.
- **Certificate administration** (`AdminCertificates`):
  - validation of a certificate definition;
  - the clearance gates of generate, put, delete and edit;
  - the grouping of an imported certificate collection into one primary and its secondaries;
  - the key sets that delete, purge and listing select.
- **Putting an index** (`PutIndex`):
  - the case-insensitive name-collision rule of `PutIndexCommand.UpdateDatabaseRecord`;
  - the parse of the global rolling setting, including `bool.TryParse`.
- **Scoped access mode** (`ServerConfigurations`): `SetAccessMode` and the restorer's `Dispose`.

The files are:

| file | content |
|---|---|
| `wrappers.dfy` | `Option`, `Result` and `Outcome` |
| `text.dfy` | ordinal case-insensitive comparison, `Char.IsWhiteSpace`, `StartsWith` |
| `change_vector.dfy` | vector lookup, bump, and the ideal merges |
| `change_vector_text.dfy` | Guid, Int64 and vector text forms, with their parsers |
| `replication_utils.dfy` | the `ReplicationUtils` methods |
| `conflict_listener.dfy` | the conflict and store listeners |
| `admin_certificates.dfy` | the certificate handler rules |
| `put_index.dfy` | `PutIndexCommand` |
| `server_configuration.dfy` | `ServerConfiguration` |

## Model

| member | source | states |
|---|---|---|
| Text.EqualsIgnoreCaseIsFoldEquality | src/Raven.Server/Utils/ReplicationUtils.cs:140-141 | Two strings are equal under OrdinalIgnoreCase exactly when their upper-cased forms are equal. |
| ChangeVectors.IndexOf | src/Raven.Server/Utils/ReplicationUtils.cs:377-386 | It returns the position of the first entry with the id, no entry before it has the id, and it returns None exactly when no entry has the id. |
| ChangeVectors.Lookup | src/Raven.Server/Utils/ReplicationUtils.cs:374-387 | The first-match etag of an id is defined exactly when some entry has that id. |
| ChangeVectors.LookupAppend | src/Raven.Server/Utils/ReplicationUtils.cs:374-387 | Looking an id up in a concatenation finds it in the first part when it is there, and in the second part otherwise. |
| ChangeVectors.Bump | src/Raven.Server/Utils/ReplicationUtils.cs:293-308 | A bump keeps the length when the id is present and adds one entry otherwise. |
| ChangeVectors.BumpLookup | src/Raven.Server/Utils/ReplicationUtils.cs:293-308 | After a bump the id reads back with the new etag, and every other id reads back as before. |
| ChangeVectors.BumpKeepsOthers | src/Raven.Server/Utils/ReplicationUtils.cs:295-302 | Every entry other than the first with the id is unchanged. |
| ChangeVectors.Merge | src/Raven.Server/Utils/ReplicationUtils.cs:310-335 | This is the corrected pairwise merge: every id reads back as the larger of its etags in the two inputs, and an id missing from both stays missing. |
| ChangeVectors.MergeLookup | src/Raven.Server/Utils/ReplicationUtils.cs:310-335 | Raising A's entries by B and appending B's entries for ids A lacks gives, for every id, the maximum of the two lookups. |
| ChangeVectors.MergeCommutes | src/Raven.Server/Utils/ReplicationUtils.cs:310-335 | The corrected merge does not depend on the order of its arguments. |
| ChangeVectors.MergeAssociates | src/Raven.Server/Utils/ReplicationUtils.cs:310-335 | The corrected merge does not depend on the grouping of three vectors. |
| ChangeVectors.MaxAcrossIsMax | src/Raven.Server/Utils/ReplicationUtils.cs:337-372 | The per-node maximum across vectors is missing exactly when no vector has the id. Otherwise it bounds every vector's etag and is attained by one of them. |
| ChangeVectors.MergeAll | src/Raven.Server/Utils/ReplicationUtils.cs:337-372 | This is the corrected multi-way merge: every id reads back as its per-node maximum across all vectors. |
| ChangeVectors.MergeAllIsPerNodeMax | src/Raven.Server/Utils/ReplicationUtils.cs:337-372 | Every id of every input appears in the corrected merge, with an etag at least that input's, taken from some input. |
| ChangeVectorText.ParseHexRoundTrip | src/Raven.Server/Utils/ReplicationUtils.cs:192 | Reading back the fixed-width hexadecimal text of a number gives the number. |
| ChangeVectorText.ParseGuidRoundTrip | src/Raven.Server/Utils/ReplicationUtils.cs:192 | Reading back the dashed 36-character text of a Guid gives the Guid. |
| ChangeVectorText.GuidTextInjective | src/Raven.Server/Utils/ReplicationUtils.cs:28-34 | Distinct Guids have distinct texts, so dictionary keys made from them do not collide. |
| ChangeVectorText.ParseDigitsRoundTrip | src/Raven.Server/Utils/ReplicationUtils.cs:192 | Reading back the decimal digits of a natural number gives the number. |
| ChangeVectorText.ParseInt64RoundTrip | src/Raven.Server/Utils/ReplicationUtils.cs:192 | Reading back the decimal text of an etag, sign included, gives the etag. |
| ChangeVectorText.FormatCons | src/Raven.Server/Utils/ReplicationUtils.cs:188-195 | The text of a vector is its first entry's `DbId:Etag;` followed by the text of the rest. |
| ChangeVectorText.FormatSnoc | src/Raven.Server/Utils/ReplicationUtils.cs:188-195 | Appending an entry appends its `DbId:Etag;` piece to the text, which is what each loop iteration does. |
| ChangeVectorText.ParseEntry | src/Raven.Server/Utils/ReplicationUtils.cs:192 | One `DbId:Etag;` piece followed by any text splits back into the entry and that text. |
| ChangeVectorText.ParseFormat | src/Raven.Server/Utils/ReplicationUtils.cs:188-195 | Parsing a vector's text gives the vector back, the empty vector included. |
| ChangeVectorText.FormatInjective | src/Raven.Server/Utils/ReplicationUtils.cs:188-195 | Distinct vectors have distinct texts. |
| ReplicationUtils.TryFindEtagByDbId | src/Raven.Server/Utils/ReplicationUtils.cs:374-387 | It returns true exactly when some entry has the id. The etag is the first matching entry's when found and 0 otherwise. |
| ReplicationUtils.UpdateChangeVectorWithNewEtag | src/Raven.Server/Utils/ReplicationUtils.cs:293-308 | When the id is present, the first matching entry's etag is set in place and the same array is returned. Otherwise a fresh array one longer is returned: its prefix is the old array, its last entry is `(dbId, newEtag)`, and the caller's array is untouched. In both cases the result is `Bump` of the old contents. |
| ReplicationUtils.GetChangeVectorForWrite | src/Raven.Server/Utils/ReplicationUtils.cs:276-291 | A null or empty vector gives a fresh array with exactly one entry `(dbid, etag)`. Any other vector gives its bump. When the id is present, the caller's own array is updated in place and returned. When it is absent, the result is a fresh array and the caller's array is left as it was. In every case `dbid` reads back with `etag`. |
| ReplicationUtils.ChangeVectorToString | src/Raven.Server/Utils/ReplicationUtils.cs:188-195 | The text is the in-order concatenation of `DbId:Etag;`, which is "" for the empty vector. |
| ReplicationUtils.DictionaryToString | src/Raven.Server/Utils/ReplicationUtils.cs:177-186 | The dictionary overload gives the text of its pairs in enumeration order. |
| ReplicationUtils.ConvertChangeVectorToDictionary | src/Raven.Server/Utils/ReplicationUtils.cs:28-34 | The keys are exactly the entries' Guid texts, and a repeated id keeps the etag of its last entry. |
| ReplicationUtils.GuidTextsDistinct | src/Raven.Server/Utils/ReplicationUtils.cs:32 | Two different database ids never have the same text, so keying the dictionary by Guid.ToString keeps the ids apart. |
| ReplicationUtils.TryGetActiveDestination | src/Raven.Server/Utils/ReplicationUtils.cs:133-149 | It returns true exactly when some handler's Url and Database both match case-insensitively. The handler returned is the first match, and it is null when there is none. |
| ReplicationUtils.PairwiseMergeLookup | src/Raven.Server/Utils/ReplicationUtils.cs:310-335 | Every id of A reads back with the larger of A's etag and B's first etag for it. A non-empty id found only in B is absent. |
| ReplicationUtils.MergeVectors | src/Raven.Server/Utils/ReplicationUtils.cs:310-335 | The length is max(\|A\|,\|B\|). Slot i < \|A\| holds A[i]'s id with the larger of A[i]'s etag and B's first etag for that id (0 when B lacks it). The remaining slots are the default entry. |
| ReplicationUtils.PairwiseMergeAgainstMerge | src/Raven.Server/Utils/ReplicationUtils.cs:310-335 | For non-negative etags, the pairwise merge agrees with the corrected merge on A's ids. It loses exactly B's other ids. |
| ReplicationUtils.PairwiseMergeIsNotSymmetric | src/Raven.Server/Utils/ReplicationUtils.cs:310-335 | Merging an empty A with B = [(1,1)] gives one default slot, while the reverse order and the corrected merge keep (1,1). |
| ReplicationUtils.OthersBest | src/Raven.Server/Utils/ReplicationUtils.cs:348-360 | The running maximum over the other vectors is never negative and is at least every other vector's etag for the id. When it is positive, some other vector holds exactly that etag. |
| ReplicationUtils.SearchOtherVectors | src/Raven.Server/Utils/ReplicationUtils.cs:348-360 | The inner search, which skips the scanned vector by reference, computes that maximum. `hasFoundAny` holds exactly when the maximum is positive. |
| ReplicationUtils.MergeVectorsAll | src/Raven.Server/Utils/ReplicationUtils.cs:337-372 | Each id appears at most once in the result. Every etag in it is positive and equals the credit the loop gives that id. Every id with a positive credit appears. |
| ReplicationUtils.MergeOneVector | src/Raven.Server/Utils/ReplicationUtils.cs:341-365 | One pass of the outer loop over a vector keeps the merged map equal to what the loop credits over the vectors seen so far, one vector further on. |
| ReplicationUtils.CreditComesFromAnotherVector | src/Raven.Server/Utils/ReplicationUtils.cs:343-363 | A credited etag belongs to an id of some scanned vector, and it is that id's etag in a different vector. |
| ReplicationUtils.OthersBestWhenNoOther | src/Raven.Server/Utils/ReplicationUtils.cs:350-362 | When no other vector has the id, nothing is found. |
| ReplicationUtils.SingleArrayIdDropped | src/Raven.Server/Utils/ReplicationUtils.cs:337-372 | An id held by a single array never gets a credit, so the multi-way merge drops it. |
| ReplicationUtils.CreditAtMostMax | src/Raven.Server/Utils/ReplicationUtils.cs:337-372 | Every credited etag is at most the id's per-node maximum. |
| ReplicationUtils.ThreeWayMergeDropsAll | src/Raven.Server/Utils/ReplicationUtils.cs:337-372 | For the three vectors [(1,1)], [(2,1)] and [(3,1)], the merge credits nothing, while the corrected merge keeps all three ids. |
| ReplicationUtils.TwoWayMergeUnderCredits | src/Raven.Server/Utils/ReplicationUtils.cs:337-372 | For [(1,5)] and [(1,3)], id 1 is credited 3 while its maximum is 5. |
| ReplicationUtils.GetJsonForConflicts | src/Raven.Server/Utils/ReplicationUtils.cs:389-406 | The object has the keys Message, DocId and Conflics in that order. The array holds one `{ChangeVector: …}` object per conflict, in order. |
| ConflictListener.MaxTime | Raven.Tests.Issues/RavenDB_3435.cs:76 | The maximum is one of the times and bounds them all. |
| ConflictListener.FirstIndexOf | Raven.Tests.Issues/RavenDB_3435.cs:79-80 | It returns the first position holding the value, or None when no position holds it. |
| ConflictListener.WinnerIsFirstLatest | Raven.Tests.Issues/RavenDB_3435.cs:76-80 | The chosen member exists. Its time is at least every member's, and every member before it is strictly older. |
| ConflictListener.UniqueLatestWins | Raven.Tests.Issues/RavenDB_3435.cs:76-80 | A member strictly newer than all others is chosen wherever it stands in the list. |
| ConflictListener.TryResolveConflict | Raven.Tests.Issues/RavenDB_3435.cs:62-91 | It resolves exactly when the list is non-null and non-empty and the key does not start with `Raven/`, and the document is null otherwise. The winner is the first member at the latest time. Its metadata loses exactly @id, @etag and the two conflict keys, and every other member's metadata is unchanged. |
| ConflictListener.StripConflictKeys | Raven.Tests.Issues/RavenDB_3435.cs:84-87 | The four removals take exactly @id, @etag and the two conflict keys out of the metadata. |
| ConflictListener.BeforeStore | Raven.Tests.Issues/RavenDB_3435.cs:41-52 | It always returns true. Non-null metadata gets Raven-Last-Modified set to `now`, and nothing else changes. |
| ConflictListener.StampedTimeReadsBack | Raven.Tests.Issues/RavenDB_3435.cs:49-50 | A stamped document reads back as modified at `now`, and its other keys keep their values. |
| ConflictListener.StrippingKeepsTime | Raven.Tests.Issues/RavenDB_3435.cs:81-88 | Stripping the conflict keys keeps the winner's last-modified time and removes all four keys. |
| AdminCertificates.FirstPermissionError | src/Raven.Server/Web/Authentication/AdminCertificatesHandler.cs:1167-1177 | There is no error exactly when every permission entry passes all three checks. |
| AdminCertificates.FirstPermissionErrorAt | src/Raven.Server/Web/Authentication/AdminCertificatesHandler.cs:1167-1177 | The error reported is the first failing entry's. |
| AdminCertificates.ValidatePermissions | src/Raven.Server/Web/Authentication/AdminCertificatesHandler.cs:1162-1179 | Missing permissions are refused. Otherwise the loop stops at the first blank name, invalid name or access other than ReadWrite or Admin, and reports that error. |
| AdminCertificates.ValidateCertificateDefinition | src/Raven.Server/Web/Authentication/AdminCertificatesHandler.cs:1151-1160 | The name check comes first, then the expiry check, then the permissions. |
| AdminCertificates.DefinitionAcceptedIff | src/Raven.Server/Web/Authentication/AdminCertificatesHandler.cs:1151-1177 | A definition is accepted exactly when the name is not blank, the expiry is absent or after today, and the permissions are present with every entry valid. |
| AdminCertificates.GenerateClearanceCheck | src/Raven.Server/Web/Authentication/AdminCertificatesHandler.cs:56-61 | Generate refuses exactly a Cluster Admin request from a caller who is not cluster admin. |
| AdminCertificates.PutChecks | src/Raven.Server/Web/Authentication/AdminCertificatesHandler.cs:217-229 | An invalid definition is refused with its validation error. A cluster-level clearance from a caller who is not cluster admin is refused. Put passes exactly when the definition is valid, the clearance gate passes and the certificate text is not blank. |
| AdminCertificates.DeleteKeys | src/Raven.Server/Web/Authentication/AdminCertificatesHandler.cs:380-418 | Delete refuses the caller's own thumbprint, a cluster-level certificate for a caller who is not cluster admin, and a secondary. Otherwise the keys are the thumbprint followed by its secondary keys. |
| AdminCertificates.Edit | src/Raven.Server/Web/Authentication/AdminCertificatesHandler.cs:645-694 | An invalid request is refused first, then a missing certificate. Edit succeeds exactly when neither the old nor the new clearance is cluster-level, or the caller is cluster admin. The stored definition combines the new name, permissions and clearance with the existing certificate, thumbprint, pinning hash and expiry. |
| AdminCertificates.IssuersMembers | src/Raven.Server/Web/Authentication/AdminCertificatesHandler.cs:279-288 | The issuer set is exactly the issuers of the members that are not self-signed. |
| AdminCertificates.KeptMembers | src/Raven.Server/Web/Authentication/AdminCertificatesHandler.cs:290-293 | A member is stored exactly when its subject is not an issuer. |
| AdminCertificates.SecondaryKeysMembers | src/Raven.Server/Web/Authentication/AdminCertificatesHandler.cs:319-329 | The primary's secondary keys are exactly the stored members' thumbprints that differ from its own. |
| AdminCertificates.CollectionDefinitions | src/Raven.Server/Web/Authentication/AdminCertificatesHandler.cs:290-333 | One definition is stored per kept member. |
| AdminCertificates.StoredAreNonIssuers | src/Raven.Server/Web/Authentication/AdminCertificatesHandler.cs:279-333 | Every stored definition carries the request's name, permissions, clearance and password, and the thumbprint and expiry of a non-issuer member. Every non-issuer member is stored. |
| AdminCertificates.PrimaryListsOthers | src/Raven.Server/Web/Authentication/AdminCertificatesHandler.cs:317-329 | The first stored definition has no primary key. Its secondary keys are exactly the other stored thumbprints that differ from its own. |
| AdminCertificates.SecondariesPointAtPrimary | src/Raven.Server/Web/Authentication/AdminCertificatesHandler.cs:330-331 | Every later stored definition points at the primary's thumbprint and lists nothing. |
| AdminCertificates.DeletingPrimaryCoversCollection | src/Raven.Server/Web/Authentication/AdminCertificatesHandler.cs:317-331 | Deleting the primary covers every stored member of the collection, and every other member is a secondary that Delete refuses. |
| AdminCertificates.GatherIssuers | src/Raven.Server/Web/Authentication/AdminCertificatesHandler.cs:281-288 | The first pass fails exactly when some member has the server's thumbprint. Otherwise it yields exactly the issuers of the members that are not self-signed. |
| AdminCertificates.GatherSecondaryKeys | src/Raven.Server/Web/Authentication/AdminCertificatesHandler.cs:323-329 | The primary's inner pass collects, in order, the thumbprints of the stored members that differ from the primary's. |
| AdminCertificates.PutCertificateCollectionInCluster | src/Raven.Server/Web/Authentication/AdminCertificatesHandler.cs:266-353 | The import fails exactly when some member has the server's thumbprint, and nothing is stored then. Otherwise it stores the linked definitions in collection order. |
| AdminCertificates.GetAllRegisteredCertificates | src/Raven.Server/Web/Authentication/AdminCertificatesHandler.cs:544-577 | Keys are compared under the dictionary's own comparer. Existing entries are kept, and distinct keys stay distinct. A key is listed exactly when it was there before or some listed item (any item when `includeSecondary` is set, otherwise a primary) has it under that comparer. Every added pair is the first listed item for its key, as TryAdd keeps it. |
| AdminCertificates.OfferItem | src/Raven.Server/Web/Authentication/AdminCertificatesHandler.cs:568-576 | One pass of the loop keeps every property of the listing, one item further on. |
| AdminCertificates.TryAdd | src/Raven.Server/Web/Authentication/AdminCertificatesHandler.cs:572-573 | The pair is added exactly when the comparer does not already hold its key. The key set grows by that key, and distinct keys stay distinct. |
| AdminCertificates.IgnoreCaseKeyIff | src/Raven.Server/Web/Authentication/AdminCertificatesHandler.cs:461 | Under StringComparer.OrdinalIgnoreCase, two thumbprints are one key exactly when they are equal ignoring case. |
| AdminCertificates.ListCertificates | src/Raven.Server/Web/Authentication/AdminCertificatesHandler.cs:461-487 | The listing ignores case. The server certificate comes first when there is one. No other listed thumbprint equals it ignoring case, and keys stay distinct ignoring case. Every other pair is the first listed item for its key. Every first-listed item is present unless its thumbprint matches the server's ignoring case. |
| AdminCertificates.PurgeExpired | src/Raven.Server/Web/Authentication/AdminCertificatesHandler.cs:356-376 | The keys to delete are exactly the primaries whose kept definition has an expiry earlier than now, each listed once. |
| AdminCertificates.PurgeSelection | src/Raven.Server/Web/Authentication/AdminCertificatesHandler.cs:365-371 | Selecting the expired entries of the listing gives exactly the expired primaries. |
| PutIndex.TrimStart | src/Raven.Server/ServerWide/Commands/Indexes/PutIndexCommand.cs:66 | It drops exactly the leading run of white space and NUL characters. |
| PutIndex.TrimEnd | src/Raven.Server/ServerWide/Commands/Indexes/PutIndexCommand.cs:66 | It drops exactly the trailing run of white space and NUL characters. |
| PutIndex.TrimPadding | src/Raven.Server/ServerWide/Commands/Indexes/PutIndexCommand.cs:66 | Trimming a padded word gives back the word. |
| PutIndex.ParseBoolRoundTrip | src/Raven.Server/ServerWide/Commands/Indexes/PutIndexCommand.cs:66-69 | `bool.TryParse` of a boolean's text, with any padding, gives the boolean back. |
| PutIndex.GetGlobalRollingSetting | src/Raven.Server/ServerWide/Commands/Indexes/PutIndexCommand.cs:61-70 | It is false when the key is absent and false when the value does not parse. Otherwise it is the parsed value. |
| PutIndex.RollingSettingReadsBack | src/Raven.Server/ServerWide/Commands/Indexes/PutIndexCommand.cs:61-70 | A setting holding a boolean's text reads back as that boolean. |
| PutIndex.HasKey | src/Raven.Server/ServerWide/Commands/Indexes/PutIndexCommand.cs:45 | TryGetValue finds a key exactly when some index is stored under it. |
| PutIndex.UpdateDatabaseRecord | src/Raven.Server/ServerWide/Commands/Indexes/PutIndexCommand.cs:39-59 | The update fails exactly when an existing index name matches the new name ignoring case and no index is keyed by exactly that name. The failure is a RachisApplyException wrapping the casing error. An exact re-put and a name with no case-insensitive match are allowed. On success the definition, source, time, etag, revisions and rolling setting go to AddIndex. |
| PutIndex.BuildIndexNames | src/Raven.Server/ServerWide/Commands/Indexes/PutIndexCommand.cs:43 | The set built from the record holds exactly the upper-cased names of its indexes. |
| PutIndex.FoldedMember | src/Raven.Server/ServerWide/Commands/Indexes/PutIndexCommand.cs:43-45 | The new name's upper-cased form is in the case-insensitive name set exactly when some index name matches it ignoring case. |
| PutIndex.CollisionTest | src/Raven.Server/ServerWide/Commands/Indexes/PutIndexCommand.cs:45 | "Add returns false and TryGetValue finds nothing" is exactly the collision rule. |
| PutIndex.SetIndex | src/Raven.Server/ServerWide/Commands/Indexes/PutIndexCommand.cs:52 | Storing a definition under its name adds exactly that key, keeps every entry under another key, and keeps the names unique. With unique names, the entry under that name is the new definition. |
| PutIndex.ReputAfterAddIsAllowed | src/Raven.Server/ServerWide/Commands/Indexes/PutIndexCommand.cs:45-52 | Once AddIndex has stored an index under its name, putting that exact name again never collides, and the record keeps unique names. |
| PutIndex.CollisionIgnoresCase | src/Raven.Server/ServerWide/Commands/Indexes/PutIndexCommand.cs:43-48 | Two names that differ only in case collide alike when neither is a key. |
| ServerConfigurations.ServerConfiguration.SetAccessMode | src/Raven.Server/Config/Categories/ServerConfiguration.cs:33-38 | The mode becomes the new value, and the restorer holds this configuration and the previous mode. No other field changes. |
| ServerConfigurations.RestoreAccessMode.Dispose | src/Raven.Server/Config/Categories/ServerConfiguration.cs:51-54 | The parent's mode becomes the held value, and no other field changes. |
| ServerConfigurations.Scoped | src/Raven.Server/Config/Categories/ServerConfiguration.cs:33-54 | Inside the scope the mode is the one set, and afterwards the configuration is as before. |
| ServerConfigurations.NestedScopes | src/Raven.Server/Config/Categories/ServerConfiguration.cs:33-54 | Nested scopes disposed innermost first show the inner mode, then the outer mode, then the original mode. |
| ServerConfigurations.DisposeTwice | src/Raven.Server/Config/Categories/ServerConfiguration.cs:51-54 | Disposing the same restorer twice leaves the mode it restored, whatever was set in between. |

## Left out

- I/O, HTTP plumbing, zip and PEM writing, cluster and Raft commands, index-notification waits, and the local-state writes of a passive node are not modelled. Each operation returns what it would write or delete.
- Clocks are parameters: `now` for the store listener and the purge, `today` for validation.
- X.509 loading, Base64 decoding and export, and `HasPrivateKey` are not modelled. A certificate is a record of its thumbprint, issuer, subject, expiry, exported text and pinning hash.
- `ResourceNameValidator.IsValidResourceName` is the parameter `nameError`: None for a valid name, and the error message otherwise.
- `DeleteInternal`, `ReadCertificateFromCluster`, `IsClusterAdmin` and the caller's certificate are not modelled. Their results are parameters.
- AdminCertificates.Edit: `DeleteLocalState` is not modelled; only the definition written back is stated.
- AdminCertificates.GetAllRegisteredCertificates: the passive and active branches read different stores but apply the same rule, so one sequence of items stands for either. Paging by start and page size is not modelled. The comparer is the function `keyOf` that gives each key's form: `IgnoreCaseKey` for the listing endpoint's dictionary, `OrdinalKey` for the purge's.
- AdminCertificates.ListCertificates: the branch that reads one certificate by thumbprint is not modelled. The server certificate's definition is a parameter.
- The Generate endpoint's certificate creation and the rest of the handler (Let's Encrypt renewal, cluster certificate replacement) are not modelled.
- Case-insensitive comparison folds ASCII letters only. OrdinalIgnoreCase also folds other scripts.
- ConflictListener.TryResolveConflict: `StartsWith("Raven/")` is culture-sensitive in .NET; the model compares ordinally.
- ConflictListener.LastModified: a metadata value that is not a date reads as time 0, like an absent one.
- `AfterStore` does nothing and is not modelled. The test harness around the listeners is concurrent and polling I/O, so it is not modelled either.
- ChangeVectorText.GuidText writes a Guid as the 32 hexadecimal digits of its 128-bit value, in 8-4-4-4-12 groups. .NET orders the first three groups' bytes differently. Only the shape, injectivity and round trip matter here.
- `DateTimeOffset` values are integers (ticks), and the etag is an Int64 subset type.
- The enumeration behind the anonymous access mode is not part of this model. Its values are integers.
- PutIndex.UpdateDatabaseRecord: `DatabaseRecord.AddIndex` is not part of this model. The method returns the arguments it passes. PutIndex.SetIndex states only its dictionary write `Indexes[name] = definition`. The text of the rolling-setting key is the parameter `rollingKey`, and a setting value is never null here.
- PutIndex.IndexDefinition: only the name of an index definition is modelled.
- `ReplicationUtils.GetLocalTopology`, `GetTcpInfo`, `GetTcpInfoAsync`, `WriteChangeVectorTo`, `ReadChangeVectorFrom`, `GetChangeVectorEntriesFromTableValueReader` and `GetEnumFromTableValueReader` are not modelled. They are network requests or unsafe storage reads.
- ReplicationUtils.GetJsonForConflicts: `ChangeVector.ToJson()` is the parameter `toJson`.
- The parser of the change-vector text and the per-node-maximum merges have no counterpart in the code. They are independent reference definitions.

## Findings

| source | as written | input that shows it | evidently intended | confidence | as-written member | corrected member |
|---|---|---|---|---|---|---|
| src/Raven.Server/Utils/ReplicationUtils.cs:310-335 | The pairwise merge walks only A. It drops ids found only in B, and leaves default `(empty Guid, 0)` slots when B is longer. | A = [], B = [(1,1)] gives [(empty Guid, 0)] | Every id of either vector, with the larger etag (commutative and associative) | low, not executed | ReplicationUtils.PairwiseMergeIsNotSymmetric | ChangeVectors.MergeCommutes |
| src/Raven.Server/Utils/ReplicationUtils.cs:337-372 | The multi-way merge credits an id only with etags from the other vectors. An id held by one vector is dropped, and the result can fall below the id's own etag. | [(1,1)], [(2,1)], [(3,1)] gives []; [(1,5)], [(1,3)] gives [(1,3)] | The per-node maximum over all vectors | medium, not executed | ReplicationUtils.ThreeWayMergeDropsAll | ChangeVectors.MergeAllIsPerNodeMax |
