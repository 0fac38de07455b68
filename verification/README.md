# A verified model of the deSEC API

deSEC hosts DNS zones. Its API keeps three things in agreement: the SQL database, the zone contents on two PowerDNS
servers (nslord, where zones are edited, and nsmaster, which retrieves them), and the rules that users are held to.
This project models the parts of the code that have to get this right, in Dafny 4.11, and proves what they promise.
`dafny verify dfyconfig.toml` checks everything.

Databases, zones and caches are maps; Django signals are events; a loop over a Python set takes its elements in an
arbitrary order, so independence of that order is part of each proof. Objects whose methods update fields are classes,
loops that update variables are loops; each is proved against functions on values, about which the properties over all
inputs and all runs are proved.

| files | what they model |
|---|---|
| `Dns.dfy`, `Strings.dfy` | names, RRsets, zones, CNAME exclusivity; splitting, suffixes, searching in strings |
| `ChangeTracker.dfy`, `Replication.dfy`, `PdnsChangeTracker.dfy` | the change tracker: signal handlers, compilation into zone operations, their execution, and what the name servers hold afterwards |
| `Records.dfy`, `ApiDatabase.dfy`, `BulkUpdate.dfy`, `BulkValidation.dfy`, `BulkReplication.dfy` | bulk RRset requests, from validation to the name servers |
| `Delegation.dfy` | the delegation of locally registered domains from their parent zone |
| `TokenPolicies.dfy` | token scoping policies |
| `Throttling.dfy` | the multi-rate sliding-window throttle |
| `ZoneOwnership.dfy`, `Names.dfy` | public suffixes, registrability, query names and subnames |
| `Renewal.dfy`, `Scavenger.dfy`, `RenewalAction.dfy` | unused domains: notices, deletion, renewal links |
| `TxtWire.dfy`, `Catalog.dfy`, `SyncToPdns.dfy`, `Subnets.dfy`, `DynDns.dfy`, `Utf8.dfy`, `QrPath.dfy` | encodings, catalog zone, synchronization, dynDNS, QR code |

## Where the code does not do what one might expect

- **A commit does not always bring the zones in line with the database.** When an RRset that had records is deleted,
  created again and then either left without records or deleted once more within one tracked block, the tracker forgets
  that PowerDNS still has it, and the zone keeps the old records (`Replication.ForgottenExists` is such a run).
  `Replication.ZonesEqualDatabaseIff` says that this is the only way: the zones equal the database if and only if no key
  took that path. Bulk requests never do (`BulkReplication.TrackedUpdate`). The delegation update does: it deletes and
  creates again the NS and DS RRsets of a child domain, and `Delegation.TrackedDelegation` says that the zones then equal
  the database if and only if there are new DS contents or there were no DS records.
- **Moving addresses into an IPv6 subnet whose number is below 2^32 fails.** The code makes an address of the subnet's
  number alone, and such a number is taken for an IPv4 address. Moved into ::/64, 2001:db8::7 becomes 0.0.0.7 and
  2001:db8::1:2:3:4 raises an exception (`Subnets.LowNetworkFails`). `Subnets.ReplaceIff`, `Subnets.ReplaceListIff`,
  `Subnets.ReplaceTwiceIff` and `Subnets.ReplaceBackIff` say that the replacement is right if and only if the subnet is
  IPv4 or its number is at least 2^32.
- **White space around a subname or type defeats the checks on a batch.** The list validator compares the keys as they are
  written, while the child serializer trims them. An address RRset at "www " passes the validation next to a CNAME RRset at
  "www" and then violates exclusivity (`BulkValidation.TrimmedConflict`); of two rows at "www" and "www " the update drops
  the first (`BulkValidation.TrimmedDuplicate`). `BulkValidation.ValidatedBatchIff` says that validator and update agree if
  and only if the trimmed batch has distinct keys and leaves an exclusive zone; without such white space they always do
  (`BulkValidation.TidyBatchIsAccepted`).
- **A domain can be deleted less than 211 days after the job that renewed it.** The job records the time of the last
  activity, not its own, as the time of the renewal. `Renewal.FullTermIff` says that the 211 days count from the job if
  and only if the activity was on the day of the job; `Renewal.FreshForLessThan211Days` is a concrete case.
  `Renewal.DeletionPromise` gives what always holds.
- **A name below one's own zone can be refused.** The check for zones that a new one would cover ignores public suffixes, as a
  comment in the code says: the owner of example.com cannot register b.example.com once another user has a zone below a
  local public suffix dyn.b.example.com. `ZoneOwnership.BelowOwnZone` says that a valid, new and proper name below the own
  zone is accepted if and only if no zone of another user there lies above, at or below it.
- **The bulk update deletes first.** Its documentation lists creations first
  (`api/desecapi/serializers/records.py:278-282`); the code, and the model, delete, then create, then update.
- **An update with a TTL of zero keeps the old TTL** (`api/desecapi/serializers/records.py:573-574`).
- **The domain-deletion check of tokens is conservative**, as a comment in the code says; it is proved sound, and
  `TokenPolicies.SafeDeletionIsConservative` is a case that it refuses although every RRset could be written.

## Model

| member | source | states |
|---|---|---|
| ChangeTracker.MeaningHolds | api/desecapi/pdns_change_tracker.py:318-351 | on every run the database accepts, what each of the five states of a key says about its existence and value at entry and now |
| ChangeTracker.TrackerRefinesAutomaton | api/desecapi/pdns_change_tracker.py:318-351 | on every such run no handler raises or fails an assertion, the three dictionaries have the same domains, additions and modifications are disjoint from deletions, and the sets say of each key what the automaton says |
| ChangeTracker.DomainSetsAreNetChanges | api/desecapi/pdns_change_tracker.py:353-376 | the two domain sets are exactly the domains gained and lost since entry; one created and deleted in the run is in neither |
| PdnsChangeTracker.PDNSChangeTracker.constructor | api/desecapi/pdns_change_tracker.py:177-183 | a new tracker has recorded nothing |
| PdnsChangeTracker.PDNSChangeTracker.Enter | api/desecapi/pdns_change_tracker.py:217-229 | entering a block discards what was recorded before |
| PdnsChangeTracker.PDNSChangeTracker.RrSetUpdated | api/desecapi/pdns_change_tracker.py:318-351 | the handler updates the fields as the specified transition does; it fails an assertion exactly if a created key is on record as modified or a modified one as deleted, and raises exactly if the key is both created and deleted |
| PdnsChangeTracker.PDNSChangeTracker.DomainUpdated | api/desecapi/pdns_change_tracker.py:353-376 | the same for domain events |
| PdnsChangeTracker.PDNSChangeTracker.On | api/desecapi/pdns_change_tracker.py:378-425 | each signal leads to the handler call specified for it |
| PdnsChangeTracker.PDNSChangeTracker.CompileDeletedDomains | api/desecapi/pdns_change_tracker.py:267-273 | in whatever order, the deleted domains are each listed once and all that was recorded below them is dropped |
| PdnsChangeTracker.PDNSChangeTracker.CompileDomain | api/desecapi/pdns_change_tracker.py:276-314 | neither assertion can fail, the changes of one domain are compiled, and only its additions shrink, to those with records |
| PdnsChangeTracker.PDNSChangeTracker.ComputeChanges | api/desecapi/pdns_change_tracker.py:264-316 | the change list is the specified one for some order of the two loops, and what remains recorded is known |
| PdnsChangeTracker.PDNSChangeTracker.Execute | api/desecapi/pdns_change_tracker.py:243-256 | the changes take effect one after the other until the first failure |
| PdnsChangeTracker.PDNSChangeTracker.TransferZones | api/desecapi/pdns_change_tracker.py:260-261 | in whatever order, exactly the requested zones are copied to nsmaster |
| PdnsChangeTracker.PDNSChangeTracker.Exit | api/desecapi/pdns_change_tracker.py:231-262 | after an exception nothing is sent; otherwise the exit is the specified commit |
| Replication.UpdatesExecute | api/desecapi/pdns_change_tracker.py:70-85 | executing the compiled updates fails exactly if some new domain has an RRset in the way of the default NS; otherwise exactly the listed domains have been processed, the others are untouched |
| Replication.ChangesExecute | api/desecapi/pdns_change_tracker.py:243-256 | the same for the whole change list of a run, deletions included |
| Replication.KeyReplicated | api/desecapi/pdns_change_tracker.py:123-158 | for each key of a surviving domain, the zone after the changes has what the database has, unless the key was forgotten: then it has the records from entry |
| Replication.CommitShape | api/desecapi/pdns_change_tracker.py:240-262 | the outcome of a commit, database, both servers and transferred zones, does not depend on the order of either loop |
| Replication.CommitReplicates | api/desecapi/pdns_change_tracker.py:231-262 | a commit succeeds iff no new domain has an NS or CNAME RRset at its apex (`Replication.NewDomainsCommit`); then both servers agree and, key by key, have what the database has, except that forgotten keys keep the records from entry |
| Replication.NewDomainsCommit | api/desecapi/pdns_change_tracker.py:75-85 | a commit succeeds iff no domain created in the run has an RRset (NS, "") or (CNAME, ""); then each has the default NS RRset, in its zone too if there are default name servers, and all its other RRsets as the run left them, in the zone if they have records; existing domains keep what the run left |
| Replication.ZonesEqualDatabaseIff | api/desecapi/pdns_change_tracker.py:264-351 | the zones equal the non-empty view of the database if and only if no key with records at entry was deleted, created again, and then deleted once more or left unmodified |
| Replication.ForgottenExists | api/desecapi/models/domains.py:263-291 | a concrete run, replacing a DS RRset by one without records, whose commit succeeds and leaves zones that differ from the database |
| Replication.ChangeListWellFormed | api/desecapi/pdns_change_tracker.py:264-316 | for every run: deletions come first; creations and deletions are the net changes, two changes to a domain can only be its creation directly followed by its update, updates are for existing domains |
| Replication.UpdateListedIff | api/desecapi/pdns_change_tracker.py:276-314 | an update is in the list iff its domain exists, it is not empty, and it has as additions exactly the created keys that now have records, as modifications the modified ones, as deletions the deleted ones |
| Replication.TransfersAreChangedZones | api/desecapi/pdns_change_tracker.py:242-261 | the zones transferred to nsmaster are exactly those with a creation or an update in the list |
| Records.SetErrors | api/desecapi/models/records.py:153-171 | no error about the set exactly if singleton types have at most one record, CNAME and DS are not at the apex, and DNSKEY is |
| Records.SetErrorsAre | api/desecapi/models/records.py:153-171 | the error about several records exactly for CNAME and DNAME with more than one, about the apex exactly for CNAME and DS at it, about a place below it exactly for DNSKEY there, and no other |
| Records.NoErrorsIffDistinct | api/desecapi/models/records.py:176-192 | no error about single records exactly if all are valid with pairwise different canonical forms; then the set has as many elements as the list |
| Records.AcceptableMeans | api/desecapi/models/records.py:153-192 | records make up an RRset iff CNAME and DNAME have at most one, CNAME and DS are below the apex and DNSKEY at it, and all records are valid with pairwise different canonical forms |
| Records.RecordErrorsAre | api/desecapi/models/records.py:176-192 | a record is reported as malformed iff it is invalid, and as duplicate iff an earlier one has the same canonical form |
| Records.CleanRecords | api/desecapi/models/records.py:140-197 | succeeds exactly if the records make up an RRset of their type, with the canonical set; otherwise all errors in order |
| ApiDatabase.Transaction.InsertRRset | api/desecapi/models/records.py:114-125 | a row is inserted, with its signal, exactly if it is unique and keeps CNAME exclusivity; a refused one changes nothing |
| ApiDatabase.Transaction.DeleteRRset | api/desecapi/serializers/records.py:341-342 | records go first, each with a signal, then the RRset; every state in between satisfies the constraints |
| ApiDatabase.Transaction.SaveRecords | api/desecapi/models/records.py:199-227 | the RRset ends with exactly the canonical set; only records that leave or enter it are touched; a signal is sent iff the set changes; unacceptable records change nothing |
| ApiDatabase.Transaction.Modify | api/desecapi/models/records.py:239-247 | a modified RRset sends one signal and keeps the constraints |
| Delegation.CreateRRset | api/desecapi/models/records.py:73-78 | succeeds iff the key is free, no type conflicts and the contents are distinct; one signal for the RRset, one for each record |
| Delegation.RemoveDelegation | api/desecapi/models/domains.py:263-267 | in any order, exactly the child's NS and DS RRsets go |
| Delegation.UpdateDelegation | api/desecapi/models/domains.py:255-295 | succeeds iff the child is the parent's and, if real, has keys, distinct contents and no CNAME in the way; then NS and DS at the child's name are gone or, for a real child, have TTL 3600 and the default name servers, and TTL 300 and the contents of all keys, and everything else is as before; and what the tracker then has on record for both RRsets |
| Delegation.PartitionIff | api/desecapi/models/domains.py:242-245 | a name parts into a label and a parent iff it is the two with a dot in between and the label has none |
| Delegation.CanDelegateIff | api/desecapi/models/domains.py:255-295 | a child with one label more than the parent can be delegated iff it is not real, or has keys, no name server or DS content occurs twice, and it has no CNAME |
| Delegation.ForgottenDelegation | api/desecapi/models/domains.py:263-291 | the update forgets exactly the RRsets that had records and are created again without any |
| Delegation.TrackedDelegation | api/desecapi/models/domains.py:255-295 | after the tracked block the zones equal the database iff neither RRset lost all its records: with default name servers, iff there are new DS contents or there were no DS records |
| BulkUpdate.IndexMembers | api/desecapi/serializers/records.py:313-328 | of several rows with one key, one that empties it counts, otherwise the last |
| BulkUpdate.LastRowsAreLast | api/desecapi/serializers/records.py:314-314 | the index by key has, for each key, the last of its rows |
| BulkUpdate.UnchangedIffSame | api/desecapi/serializers/records.py:568-581 | merging a batch into a zone changes nothing iff no row of it does |
| BulkUpdate.CreateRow | api/desecapi/serializers/records.py:562-566 | fails for a missing field iff the TTL or the records are missing, for integrity iff otherwise a type conflicts, else with all errors of the records iff these are not acceptable; the result is the row's value |
| BulkUpdate.UpdateRow | api/desecapi/serializers/records.py:568-581 | succeeds iff the given records are acceptable, and fails with all errors of these; the result is the row's value; a signal is sent iff it differs from before |
| BulkUpdate.DeleteAll | api/desecapi/serializers/records.py:341-342 | deletions in any order carry out exactly the rows of the deleted keys |
| BulkUpdate.CreateAll | api/desecapi/serializers/records.py:344-345 | creations in any order carry out their rows, or stop at one that is unacceptable or conflicts with a state in between |
| BulkUpdate.UpdateAll | api/desecapi/serializers/records.py:347-353 | updates in any order carry out their rows, or stop at an unacceptable one |
| BulkUpdate.ConflictPersists | api/desecapi/serializers/records.py:338-345 | because deletions come first, a conflict in any state in between is one in the merged zone |
| BulkUpdate.Update | api/desecapi/serializers/records.py:270-355 | in any order of the three loops: succeeds iff the records of each row make up an RRset, each row that creates one gives a TTL and records, and no CNAME is left next to another type; every state in between keeps uniqueness and exclusivity; key by key, an emptied key is gone, any other has its row's TTL (its old one if the row gives none or zero) and its row's canonical set (its old records if the row gives none), a key without a row and other domains are unchanged; signals are sent iff something changed |
| BulkUpdate.AllCarriedOut | api/desecapi/serializers/records.py:562-581 | the key-wise merge is what the rows ask for, TTL and records of each key told by the row and the old RRset alone |
| BulkUpdate.AcceptedMeans | api/desecapi/serializers/records.py:338-355 | when a batch can be carried out, by the records, TTLs and types of its rows and the RRsets that are left |
| BulkReplication.RepeatedBatchChangesNothing | api/desecapi/serializers/records.py:568-581 | a carried-out batch is accepted again and changes nothing |
| BulkReplication.OneWayRunReplicates | api/desecapi/pdns_change_tracker.py:231-262 | a run in which no key is both created and deleted leaves both servers with exactly the non-empty RRsets of the database |
| BulkReplication.CommitTransaction | api/desecapi/pdns_change_tracker.py:231-262 | committing a transaction on RRsets succeeds; both servers agree, and equal the database iff it forgot no key |
| BulkReplication.TrackedUpdate | api/desecapi/serializers/records.py:270-355 | a tracked bulk request ends, key by key, with what its rows ask for, and both servers have exactly the RRsets of the database that have records; without a change in the database the change list is empty |
| BulkReplication.RepeatedUpdate | api/desecapi/models/records.py:199-227 | repeating an accepted request compiles to the empty change list and leaves database and zones alone |
| BulkReplication.Notify | api/desecapi/pdns_change_tracker.py:378-425 | handing the signals of a run to a tracker one by one leads to the specified state, without exceptions |
| BulkValidation.BuildIndices | api/desecapi/serializers/records.py:168-199 | the index has, for each subname in the batch, where each type occurs in the batch and in the database |
| BulkValidation.Collapse | api/desecapi/serializers/records.py:201-207 | the collapsed index has where each key still occurs once the requested deletions are done |
| BulkValidation.CheckRow | api/desecapi/serializers/records.py:211-261 | the check against the two indices gives the verdict specified on the batch and the database |
| BulkValidation.MistypedIff | api/desecapi/serializers/records.py:172-189 | a row has the wrong type iff it is no dictionary or its subname or type is no string; the error tells which |
| BulkValidation.DuplicateIff | api/desecapi/serializers/records.py:215-226 | a row is a duplicate iff another has the same subname and type, or lacks the same; the error has the positions of all of those |
| BulkValidation.ConflictIff | api/desecapi/serializers/records.py:228-246 | for any batch, a row gets the CNAME error iff it is no duplicate, does not empty its key, and another row that does not, or an RRset of the database that no row empties, is at the same subname with one of the two a CNAME |
| BulkValidation.OtherwiseChildDecides | api/desecapi/serializers/records.py:248-257 | without any of these errors the child serializer decides, on the known RRset with this subname and type if there is one, and on a partial update if that was asked for and the row does not create an RRset |
| BulkValidation.ToInternalValue | api/desecapi/serializers/records.py:145-268 | all rows if every verdict is good, otherwise each row's error, or none if its verdict is good |
| BulkValidation.CnameErrorIffExclusivityViolated | api/desecapi/serializers/records.py:228-246 | for a batch of full, distinct keys over an exclusive database, some row gets the CNAME error iff what the batch would leave, by its keys as written, violates exclusivity; without white space around them this is what the update leaves |
| BulkValidation.ProperRowsAreAlone | api/desecapi/serializers/records.py:215-226 | rows with distinct keys get no duplicate error |
| BulkValidation.ValidatedBatchIff | api/desecapi/serializers/records.py:194-355 | if all verdicts are good, the rows have distinct keys iff the trimmed batch has, the update leaves an exclusive zone iff the trimmed batch does, and it succeeds iff that and the records of each row make up an RRset |
| BulkValidation.TidyBatchIsAccepted | api/desecapi/serializers/records.py:194-355 | if all verdicts are good and no key has white space around it, keys are unique, the merged zone is exclusive, and the update succeeds iff the records of each row make up an RRset |
| BulkValidation.TrimmedConflict | api/desecapi/serializers/records.py:121-123 | a concrete batch that passes the validation and violates exclusivity |
| BulkValidation.TrimmedDuplicate | api/desecapi/serializers/records.py:313-314 | a concrete batch that passes the validation and of which one row is lost |
| TokenPolicies.FallThroughIsMostSpecific | docs/auth/tokens.rst:372-396 | the eight-step fall-through finds the matching policy of the highest priority, and nothing only if none matches |
| TokenPolicies.QueryIsFallThrough | api/desecapi/models/tokens.py:162-177 | the first row of the filtered rows in any order sorted by domain, subname, type with nulls last is what the fall-through finds |
| TokenPolicies.GetPolicy | api/desecapi/models/tokens.py:162-177 | the lookup returns what the fall-through finds |
| TokenPolicies.LookupIff | api/desecapi/models/tokens.py:162-177 | a lookup finds a policy iff it applies to the RRset and is more specific, by domain, then subname, then type, than all others that do, and nothing iff none applies |
| TokenPolicies.DefaultLookupIff | api/desecapi/models/tokens.py:162-177 | without an RRset, it finds exactly the policy without domain, subname and type |
| TokenPolicies.MayWriteIff | api/desecapi/permissions.py:107-110 | writing is allowed iff the applicable policy that is more specific than all others, if there is one, permits it |
| TokenPolicies.SafeDeletionIff | api/desecapi/models/tokens.py:179-204 | the check passes iff all policies of the domain permit writing, and so do all without a domain unless the domain has a default policy |
| TokenPolicies.StorageOrderIrrelevant | api/desecapi/models/tokens.py:253-260 | the decision depends on which policies are stored, not on their order |
| TokenPolicies.SafeDeletionIsSound | api/desecapi/models/tokens.py:179-204 | if the check passes, the token may write every RRset of the domain |
| TokenPolicies.SafeDeletionIsConservative | api/desecapi/models/tokens.py:195-198 | a token that may write every RRset and fails the check |
| TokenPolicies.AutoPolicyOpensNewDomainOnly | api/desecapi/views/domains.py:107-114 | the automatic policy makes the new domain deletable and changes no lookup or check for other domains |
| TokenPolicies.AutoPolicyIsAccepted | api/desecapi/views/domains.py:107-114 | the automatic policy is always accepted |
| TokenPolicies.AnyPolicyMeansEveryLookupFinds | api/desecapi/models/tokens.py:282-300 | in a consistent state, any policy implies exactly one default policy and that every lookup finds a policy |
| TokenPolicies.Token.CreatePolicy | api/desecapi/models/tokens.py:329-340 | accepted iff it is the default policy or there is one, and none has the same domain, subname and type; so iff the result is consistent and the deferred triggers cannot fire; otherwise nothing changes |
| TokenPolicies.Token.UpdatePolicy | api/desecapi/models/tokens.py:341-359 | accepted iff it stays or does not become the default policy, is no permissive default under auto_policy, and no other policy has the same domain, subname and type; so iff the result is consistent |
| TokenPolicies.Token.DeletePolicy | api/desecapi/models/tokens.py:361-383 | refused iff it is the default policy and there is another policy or auto_policy is on; so accepted iff the result is consistent; exactly that policy goes |
| TokenPolicies.Token.Save | api/desecapi/models/tokens.py:206-231 | auto_policy is switched on iff no permissive default policy exists, and brings exactly one restrictive default policy into being if there is no policy |
| TokenPolicies.Token.CascadeDomainDeletion | api/desecapi/models/tokens.py:237-237 | exactly the domain's policies go, the state stays consistent and the lookups for other domains as they were |
| Throttling.RatesHold | api/desecapi/throttling.py:47-81 | under a non-decreasing clock each rate (n, d) admits at most n requests in every half-open interval of length d, counted over the admissions of the run |
| Throttling.RunAdmissionsApart | api/desecapi/throttling.py:47-81 | of n + 1 successive admissions under a rate (n, d), the first and the last are at least d apart |
| Throttling.AdmitsIff | api/desecapi/throttling.py:53-75 | a request is admitted iff for each rate (n, d) n is positive and the n-th latest admission, if there is one, is at least d ago: none with room left is refused |
| Throttling.Prune | api/desecapi/throttling.py:59-60 | popping from the end leaves exactly the entries within the duration |
| Throttling.PruneAll | api/desecapi/throttling.py:53-75 | the loop over the rates decides as the full log of admissions does, and the histories it leaves still suffice |
| Throttling.SufficientHistory | api/desecapi/throttling.py:56-61 | a history that lost only entries outside its window tells the same as the full log |
| Throttling.ScopedRatesThrottle.FetchHistories | api/desecapi/throttling.py:48-51 | whatever the cache has dropped by expiry, the fetched histories suffice |
| Throttling.ScopedRatesThrottle.AllowRequest | api/desecapi/throttling.py:47-81 | a request is admitted iff every rate has fewer than n earlier admissions newer than now - d, in the full log; it is then recorded, and other clients are unaffected |
| ZoneOwnership.PublicSuffix | api/desecapi/models/domains.py:89-112 | the loop, in any order of the local suffixes, finds the public suffix: what the list says if the name is one; otherwise the longest among the applicable local suffixes and what the list says, or the top-level domain if the list cannot be reached |
| ZoneOwnership.PublicSuffixUnique | api/desecapi/models/domains.py:101-112 | there is only one, and it is a suffix of the name at a label boundary |
| ZoneOwnership.TopLevelIs | api/desecapi/models/domains.py:94-96 | without the list, what follows the last dot counts |
| ZoneOwnership.PrivateDomainsExact | api/desecapi/models/domains.py:118-127 | splitting and rejoining gives exactly the suffixes of the name strictly below its public suffix, and the assertion on the name cannot fail |
| ZoneOwnership.PrivateGenerationCounts | api/desecapi/models/domains.py:148-156 | the generation is never negative, and zero exactly for a public suffix |
| ZoneOwnership.ValidNameIff | api/desecapi/models/base.py:25-34 | the valid names by positions: allowed characters, no dot at an end or next to another, none of 64 characters in a row without a dot, a dot after each underscore, at most 191 characters, and perhaps a final newline |
| ZoneOwnership.RegistrableIff | api/desecapi/models/domains.py:142-178 | a valid name is registrable iff it is not under .internal, is a public suffix only if local, has no reserved prefix directly under one, and no zone of another user lies between it and its public suffix or below it |
| ZoneOwnership.AcceptedIff | api/desecapi/models/domains.py:114-140 | a registration is accepted iff the name is valid, new and proper, no zone with another owner is a suffix of it strictly below its public suffix, and none lies below it |
| ZoneOwnership.EventSteps | api/desecapi/models/domains.py:142-178 | an accepted registration adds exactly its zone for its owner, a deletion removes exactly its zone |
| ZoneOwnership.ComputedSuffixesAreProper | api/desecapi/models/domains.py:89-112 | what is computed as the public suffix of each name is what the theorem on runs asks of it |
| ZoneOwnership.ZonesStaySeparated | api/desecapi/models/domains.py:114-178 | over every run of registrations and deletions, a zone strictly above another user's zone is that zone's public suffix or above it |
| ZoneOwnership.BelowOwnZone | api/desecapi/models/domains.py:128-140 | in every reachable state, below one's own zone with the same public suffix, a valid, new and proper name is accepted iff no zone of another user below the own zone lies above, at or below it |
| ZoneOwnership.OnlyRegistrableNames | api/desecapi/models/domains.py:142-178 | over every run, registered names are valid, not under .internal, public suffixes only if local, and none starts with "_", "autoconfig." or "autodiscover." directly under a public suffix |
| Names.OwningDomain | api/desecapi/models/domains.py:28-41 | the longest domain that owns a query name; every other owning domain is a suffix of it; none owns a malformed or too long one |
| Names.OwnsIff | api/desecapi/models/domains.py:28-41 | a domain owns a query name iff the name is the domain or ends in a dot and the domain and, in lower case and without leading wildcard label, is valid |
| Names.OwningDomainUnique | api/desecapi/views/dyndns.py:252-262 | two owning domains of the same length are equal |
| Names.SubnameRoundTrip | api/desecapi/views/dyndns.py:278-280 | subname and domain put together give the query name and a dot, for every name but the domain with a leading dot |
| Names.ValidNamesRoundTrip | api/desecapi/views/dyndns.py:252-280 | so they do for every query name and the domain that owns it |
| Names.SliceInvertsConstruct | api/desecapi/pdns.py:189-198 | slicing a constructed name gives the subname back, at the apex too |
| Names.ConstructInvertsSlice | api/desecapi/models/records.py:127-129 | constructing from a sliced name gives the name back, for every name in the zone |
| Renewal.OneStagePerJob | api/desecapi/management/commands/scavenge-unused.py:111-131 | a job of less than a week makes WARNED only what was NOTIFIED or WARNED before, and deletes only what it leaves as it was |
| Renewal.RenewedIff | api/desecapi/management/commands/scavenge-unused.py:33-47 | a non-immortal domain of an active owner is renewed iff it was touched or published at most 183 days ago and after its last change; it becomes FRESH as of the greater of the two times |
| Renewal.AnnouncedIff | api/desecapi/management/commands/scavenge-unused.py:50-86 | exactly FRESH domains of active owners unchanged for 183 days become NOTIFIED, NOTIFIED ones unchanged for 21 days WARNED; the dates are 28 and 7 days ahead |
| Renewal.ExpiredIff | api/desecapi/management/commands/scavenge-unused.py:89-99 | a domain is expired iff its owner is active, it was WARNED at least 7 days ago, it has been touched or published, and each of the two that happened is at least 211 days ago |
| Renewal.RecentlyActiveSurvives | api/desecapi/management/commands/scavenge-unused.py:111-131 | a domain touched or published within 183 days and after its last change is not deleted by a job of less than four weeks |
| Renewal.CreationStep | api/desecapi/models/domains.py:76-87 | a new domain is FRESH if it is locally registrable and IMMORTAL otherwise |
| Renewal.EventSteps | api/desecapi/management/commands/scavenge-unused.py:32-109 | what each event of a run does to each domain, and when it does nothing |
| Renewal.RunConsistent | api/desecapi/management/commands/scavenge-unused.py:32-86 | over every run, stage, renewal_changed and the announcements since the domain was last FRESH fit together |
| Renewal.DeletionPromise | api/desecapi/management/commands/scavenge-unused.py:89-99 | over every run, a deleted domain was announced exactly twice since it was last FRESH, both dates have come, it has been touched or published and each of the two that happened is at least 211 days ago, its recorded renewal is 211 days ago, and it became FRESH at least 28 days ago |
| Renewal.ChangedMonotone | api/desecapi/management/commands/scavenge-unused.py:36-47 | renewal_changed never decreases, the owner stays, and a domain that is gone does not come back |
| Renewal.FullTermIff | api/desecapi/management/commands/scavenge-unused.py:44-47 | after a renewal by the job, no continuation deletes the domain within 211 days of the job if and only if the last activity was on the day of the job |
| Renewal.FullTermIfRecordedNow | api/desecapi/models/authenticated_actions.py:284-287 | a renewal that is recorded with the current day, as by a link, gives the full 211 days |
| Renewal.DeletedAfterSilence | api/desecapi/management/commands/scavenge-unused.py:49-99 | without further activity, two announcements make a FRESH domain deletable 211 days after its recorded renewal |
| Renewal.FreshForLessThan211Days | api/desecapi/management/commands/scavenge-unused.py:44-47 | a concrete run in which the full term is not kept |
| Renewal.LinkNeverRevives | api/desecapi/models/authenticated_actions.py:276-282 | a renewal link that has stopped working does not work again |
| Renewal.LinkDiesWithMove | api/desecapi/models/authenticated_actions.py:85-98 | with a strict clock, a link works at most once and never after a later announcement or renewal |
| Scavenger.Command.RenewTouchedDomains | api/desecapi/management/commands/scavenge-unused.py:33-47 | every domain is renewed that was active recently and after its last change, and no other |
| Scavenger.Command.GroupByUser | api/desecapi/management/commands/scavenge-unused.py:60-65 | each candidate is listed once, at its owner, and only owners with a candidate have a list |
| Scavenger.Command.WarnDomainDeletion | api/desecapi/management/commands/scavenge-unused.py:50-86 | a domain advances iff its owner got the mail: one mail per owner, with the promised date and one link for each of the owner's candidates; a failing mail undoes its owner's changes and ends the step |
| Scavenger.MailedLinksWork | api/desecapi/management/commands/scavenge-unused.py:75-86 | every mailed link is valid after the step |
| Scavenger.Command.DeleteDomains | api/desecapi/management/commands/scavenge-unused.py:89-109 | exactly the expired domains go, in any order up to one whose deletion fails, no other does, and exactly the users stay who keep a domain or had none before; if none fails, no expired domain is left and the delegations of all of them are removed |
| Scavenger.Command.Handle | api/desecapi/management/commands/scavenge-unused.py:111-142 | a job continues any history by its steps, up to a failing mail or deletion, and what it deletes has been promised by that history |
| RenewalAction.AuthenticatedRenewDomainAction.constructor | api/desecapi/models/authenticated_actions.py:42-49 | an action is validated iff it was given the current state, and fails iff it was given another |
| RenewalAction.AuthenticatedRenewDomainAction.Act | api/desecapi/models/authenticated_actions.py:88-98 | without a validated state nothing happens; with one the domain becomes FRESH now |
| RenewalAction.Confirm | api/desecapi/models/authenticated_actions.py:256-287 | a confirmed link is accepted iff the domain exists with the link's owner and renewal_changed and the owner is active; it then becomes FRESH now, and otherwise nothing changes; the stored domains are those of the history continued by it; refused as forbidden iff the user is inactive, as a bad request iff otherwise the domain is gone |
| TxtWire.WriteToken | api/desecapi/dns.py:96-100 | the loop appends the token's character-strings of at most 255 bytes |
| TxtWire.ToWire | api/desecapi/dns.py:94-100 | the buffer is the wire form of all tokens |
| TxtWire.WireRoundTrip | api/desecapi/dns.py:94-100 | the wire form is a valid sequence of character-strings, decodes to chunks that concatenate to the tokens' bytes, and encoding the chunks again gives the same wire form |
| TxtWire.DecodeIff | api/desecapi/dns.py:96-100 | data decode to certain character-strings iff they consist of these, each of at most 255 bytes and after its length |
| TxtWire.WireLength | api/desecapi/dns.py:96-100 | each token of n bytes takes n + max(1, ceil(n/255)) bytes |
| Catalog.MembersDistinct | api/desecapi/pdns.py:289-303 | different zones have different member records, none of them a base record |
| Catalog.RebuiltHolds | api/desecapi/management/commands/align-catalog-zone.py:47-56 | a rebuilt catalog has exactly the NS RRset "invalid." at catalog.internal., the TXT RRset "2" at version.catalog.internal., and for each zone a PTR RRset with its dotted name at the digest of that name under zones.catalog.internal. |
| Catalog.MemberIs | api/desecapi/pdns.py:281-303 | name, type and content of a zone's member record, the same with and without final dot |
| Catalog.RebuiltUnique | api/desecapi/management/commands/align-catalog-zone.py:47-56 | a catalog is determined by its zones |
| Catalog.UpdateKeepsRebuilt | api/desecapi/pdns.py:201-211 | one patch keeps the catalog what would be rebuilt from the zones |
| Catalog.CatalogFollowsZones | api/desecapi/pdns.py:201-211 | whatever change list is executed, the patched catalog is the one rebuilt from the zones then on nslord |
| Catalog.ListedZonesSameCatalog | api/desecapi/management/commands/align-catalog-zone.py:26-28 | the zone names as nslord lists them, with a final dot, give the same catalog |
| Catalog.NsMaster.AlignCatalogZone | api/desecapi/management/commands/align-catalog-zone.py:23-71 | in any order of the zones the recreated catalog is the rebuilt one, with the serial after the previous one |
| SyncToPdns.KeysCorrespond | api/desecapi/pdns.py:185-198 | API keys and names in the zone correspond one to one; the name is the subname, the domain and final dot, at the apex without the subname |
| SyncToPdns.FreshZoneHas | api/desecapi/pdns.py:214-244 | a new zone has, at the domain's name, the SOA RRset and the default NS RRset if they have records, and nothing else |
| SyncToPdns.SyncDomain | api/desecapi/management/commands/sync-to-pdns.py:50-82 | whatever the zone was, it ends with its SOA and exactly the database's non-empty RRsets, on nsmaster too unless it is missing there alone, which fails; "created" iff it was missing on both servers |
| Subnets.AndMask | api/desecapi/models/records.py:66-66 | masking with the host mask is the remainder modulo the size of the network |
| Subnets.InNetworkIff | api/desecapi/models/records.py:63-66 | an address is in a network iff it has its family and its first bits; the host bits are the rest |
| Subnets.ReplaceExact | api/desecapi/models/records.py:59-70 | for an IPv4 network, or an IPv6 one with a number of at least 2^32, the new address is the one address in it with the same host bits, and a valid one |
| Subnets.ReplaceIff | api/desecapi/models/records.py:64-67 | the result is an address in the network with the same host bits iff the network is one of these; when an exception is raised instead |
| Subnets.LowNetworkFails | api/desecapi/models/records.py:65-65 | concrete addresses for which ::/64 gives an IPv4 address and an exception |
| Subnets.ReplaceListIff | api/desecapi/models/records.py:63-70 | records of the other family are dropped, the rest keep their order and are each moved, iff the network is one of these or there is nothing to move |
| Subnets.ReplaceListRaises | api/desecapi/models/records.py:63-70 | replacing raises an exception iff the network is none of these and some sum exceeds 32 bits |
| Subnets.ReplaceTwiceIff | api/desecapi/models/records.py:63-70 | replacing twice is replacing once iff the network is one of these or there is nothing to move |
| Subnets.ReplaceBackIff | api/desecapi/models/records.py:59-70 | replacing back with the original network of equal size restores the address iff both networks are among these |
| DynDns.SubnetRecords | api/desecapi/views/dyndns.py:330-334 | a subnet action gives the moved records if the subnet's number is not taken for an IPv4 address; exactly when it raises |
| DynDns.BuildData | api/desecapi/views/dyndns.py:341-366 | each key of the particular actions follows its own action, any other addressed key the general one for its type: without an action or to be preserved it has no row, set to addresses exactly one row with these, moved to a subnet exactly one with the stored addresses moved; no other key has a row; it fails iff some action raises, which no subnet does whose number is not taken for an IPv4 address |
| DynDns.UnchangedStays | api/desecapi/views/dyndns.py:335-366 | a key without an action or to be preserved keeps its RRset in the bulk update, TTL included |
| DynDns.PreservedKeyUntouched | api/desecapi/views/dyndns.py:318-336 | a key without a row keeps its RRset in the bulk update |
| Utf8.ToUTF8String | www/webapp/src/modules/qrcode.vue/src/index.js:10-38 | the loop writes the encoding of the code units, lone surrogates included |
| Utf8.Utf8RoundTrip | www/webapp/src/modules/qrcode.vue/src/index.js:10-38 | decoding the result as UTF-8 (section 3 of RFC 3629, overlong forms refused) gives the code points of every well-formed UTF-16 input |
| Utf8.Utf16BecomesUtf8 | www/webapp/src/modules/qrcode.vue/src/index.js:10-38 | the UTF-16 encoding of any sequence of code points is re-encoded as their UTF-8 encoding |
| Utf8.AlwaysUtf8 | www/webapp/src/modules/qrcode.vue/src/index.js:10-38 | what is written is valid UTF-8 for every input, lone surrogates included |
| Utf8.LoneSurrogates | www/webapp/src/modules/qrcode.vue/src/index.js:23-35 | two examples of what is written for a lone surrogate |
| Utf8.Utf16Iff | www/webapp/src/modules/qrcode.vue/src/index.js:25-34 | a UTF-16 string decodes to code points iff it is their encoding, surrogate pairs included |
| Utf8.Utf8Iff | www/webapp/src/modules/qrcode.vue/src/index.js:10-38 | a UTF-8 string decodes to code points iff it is their encoding: there is only one |
| QrPath.RowRuns | www/webapp/src/modules/qrcode.vue/src/index.js:43-78 | the operations of a row are the maximal runs of dark modules, from left to right |
| QrPath.GeneratePath | www/webapp/src/modules/qrcode.vue/src/index.js:40-81 | for any matrix the rectangles are pairwise disjoint, cannot be merged within a row, and cover exactly the dark modules |

## Left out

- HTTP requests to PowerDNS and PCH, Celery, mail delivery, metrics, URL routing, renderers and pagination: a backend call is a state update that may fail.
- Concurrent requests, nested trackers, and what PowerDNS keeps when a backend call fails in the middle of a commit: the code has no two-phase commit, and a failed commit has no outcome in the model. Raw `queryset.update` calls that bypass the models' checks are left out for the same reason.
- An apex NS or CNAME RRset that a user creates in the same tracked block as the domain: the commit fails on it, which `Replication.NewDomainsCommit` states, and nothing more is said about that case.
- SOA and DNSSEC records in the replicated zones; the SOA RRset is part of `SyncToPdns` only.
- dnspython's parsing and printing per type: the canonical form of a record is an arbitrary deterministic partial function. `from_text` of long TXT records and the 64000-byte limit belong to it.
- Hashes are not computed. The catalog's member digests have 40 characters and no collisions among the zones considered; a renewal link carries the hashed values themselves.
- The public suffix list is a function that answers with a suffix of the name at a label boundary, or cannot be reached; together with the local suffixes it is fixed during a run.
- The `subname` and `type` filters of the bulk endpoint: the known RRsets are all those of the domain. List creation by POST is covered by the validator only (no known RRsets).
- An empty or non-list request body, and the field checks of single rows (TTL bounds, managed types, apex NS rules): the child serializer is a function of which `BulkValidation.Faithful` names what is relied on, trimming and uniqueness included.
- Texts of error messages, and SVG syntax of the path operations: a rectangle stands for an operation.
- The parsing of dynDNS parameters (`_find_action`, `_get_action_from_param`, `qnames`): the actions are given. Case folding of query names beyond ASCII.
- Where the keys of a delegated child come from, and the creation and deletion of child domains around the delegation update.
- Parsing of rate strings, requests without a throttle scope (always admitted), the `wait` hint, and early eviction from the cache: entries live for the longest duration. A bucket is part of the client's identity.
- The collation of subnames and types in the policy query: any order in which no text precedes itself gives the same result, and one such order is used. The `token_user` triggers and the exclusion of `user_override` with `perm_manage_tokens` are left out.
- TokenPolicies.CanSafelyDeleteDomain: completeness is not claimed, as the code itself calls the check an approximation.
- The clock is read once per step of the scavenger's job, dates are whole days of the same clock, and mails list their domains in an arbitrary order rather than by name.
- A failing deletion of an owner, or of a delegation after the deletion of expired domains, and every other kind of authenticated action.
- TOTP, captchas, donations, account views, migrations, and the Vue application except its QR code: plumbing, library-bound or user interface.
