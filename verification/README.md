# Ghost replica fixer — a Dafny model of its decision logic

`ipa-resolv-ghosts.py` is an interactive tool for a 389 Directory Server / FreeIPA deployment.
It finds *ghost* replicas: replica update vectors (RUVs) left in the database's replication
tombstone after a replica was removed without a clean-up. It can also ask the server to purge
them with a `CLEANRUV` task.

This project models the tool's decision logic:

- reading the RUV records out of the tombstone search result (`f_get_ruvs`);
- sorting them into generation, normal and ghost records (the list comprehensions of
  `f_menu` and `f_resolv_ruv`);
- the "see all" listing and its labels (`f_see_all`);
- the yes/no prompt (`confirm`);
- building the clean-up request: the target DN with its `=` escaping, and the
  `CLEANRUV<id>` value (`f_del_reg`);
- the per-ghost ignore/delete protocol, including its catch-all error handling
  (`f_resolv_ruv`);
- one round of the main menu (`f_menu`).

Python 2 string semantics are modelled explicitly in module `PyStr`, over characters rather than bytes (see "## Left out"):

- `in` is a substring test;
- `split(' ')` keeps empty pieces;
- `replace` substitutes every occurrence;
- `[:-1]` leaves an empty string empty;
- a non-empty string is true.

Operator input is one stream of lines. Each `Line` carries the text `raw_input` returns. It
also carries a `Choice`: what `input()` would evaluate that text to, as far as the action
table `{1: f_del_reg}` is concerned. The choice is `KeyOne`, `OtherKey` or `Unreadable`.
Running out of lines stands for end of input, where the program's reads raise `EOFError`.

The directory server is outside the model, in two places:

- the search result is a parameter of the menu round;
- the server's verdict on a modify request is the parameter `accepts`.

Where the tool's documented behaviour and its code differ, the model follows the code:

- A deletion request needs a replica id field in the record, besides choice 1 and a yes. For
  a record without a space, `ruv.split(' ')[1]` fails before the question is asked.
- `2` runs the ghost pass even when the menu line does not offer it (no ghosts). The pass is
  then empty.
- A refused modify request is reported like any other failure, as "Ghost RUV ignored.". The
  pass then moves on to the next ghost.

Modules:

- `Wrappers`: `Option` and `Result`.
- `PyStr`: the Python string operations above.
- `Ruvs`: reading the RUV records.
- `Classifier`: the three lists and the "see all" labels.
- `Dn`: the target DN, plus an RDN scanner following section 2 of RFC 4514 to read DNs back.
- `Directive`: the replica id and the modify request.
- `Confirm`: the yes/no prompt.
- `Resolver`: the ghost pass.
- `Menu`: one round of the main menu.

## Model

| member | source | states |
|---|---|---|
| `PyStr.ContainsIffOccurs` | ipa-resolv-ghosts.py:138 | Python's `sub in s` (scanning from the left) holds exactly when `sub` occurs at some position of `s` |
| `PyStr.Replace` | ipa-resolv-ghosts.py:123 | `s.replace(c, w)` grows by `len(w) - 1` per occurrence of `c`, and leaves no `c` behind when `w` has none |
| `PyStr.ReplaceAppend` | ipa-resolv-ghosts.py:123 | replacing in a concatenation is the concatenation of the replaced parts |
| `PyStr.Split` | ipa-resolv-ghosts.py:125 | `s.split(' ')` has exactly one more piece than `s` has spaces, and no piece contains a space |
| `PyStr.SplitJoin` | ipa-resolv-ghosts.py:125 | joining the pieces of a split with the separator gives the string back |
| `PyStr.JoinSplit` | ipa-resolv-ghosts.py:125 | splitting a join of separator-free pieces gives the pieces back |
| `PyStr.DropLast` | ipa-resolv-ghosts.py:125 | `s[:-1]` of an empty string is empty; otherwise it is `s` without its last character |
| `Ruvs.GetRuvs` | ipa-resolv-ghosts.py:103-115 | no search entries give no records; otherwise the records are every `nsds50ruv` value of the first entry of the first message, in server order; an empty first message or a missing attribute is an error (the exception that ends the program) |
| `Ruvs.OnlyFirstEntryRead` | ipa-resolv-ghosts.py:112 | two search results with the same first entry give the same records, so any other entries are ignored |
| `Classifier.Select` | ipa-resolv-ghosts.py:196-198 | a filtered list is never longer than the input, and every record in it passes its category's test |
| `Classifier.SelectIsSubsequence` | ipa-resolv-ghosts.py:196-198 | each filtered list is the input taken at strictly increasing positions: order is kept |
| `Classifier.PositionsExact` | ipa-resolv-ghosts.py:196-198 | a position is taken exactly when its record passes the test: nothing that passes is dropped |
| `Classifier.SelectKeepsMultiplicity` | ipa-resolv-ghosts.py:196-198 | no deduplication: a passing record occurs in the filtered list as often as in the input, and a failing one not at all |
| `Classifier.SelectMembership` | ipa-resolv-ghosts.py:138 | a record is in a filtered list exactly when it is in the input and passes the test |
| `Classifier.Classify` | ipa-resolv-ghosts.py:196-210 | each of the generation, normal and ghost lists holds every record passing its own test as often as it occurs in the record list, and no other record; a record of the list is in the ghost list exactly when it is in neither other list, and the three list sizes the menu prints add up to the total plus the records carrying both markers |
| `Classifier.CategoriesCover` | ipa-resolv-ghosts.py:198 | a record is a ghost exactly when it is neither a generation record nor a normal one |
| `Classifier.BothMarkersNeverGhost` | ipa-resolv-ghosts.py:196-198 | a record with both markers is in the generation list and the normal list, and never a ghost |
| `Classifier.CountsAddUp` | ipa-resolv-ghosts.py:207-210 | ghosts + generation + normal equals the total plus the number of records carrying both markers |
| `Classifier.ClassifyThreeKinds` | ipa-resolv-ghosts.py:196-198 | a live replica, a generation record and an orphaned replica land in the normal, generation and ghost list respectively, and only there |
| `Classifier.SeeAll` | ipa-resolv-ghosts.py:153-162 | the listing has one line per record, in order, and labels a record " Normal" exactly when it contains `ldap://`, since the other operand of the `and` is a non-empty literal |
| `Classifier.SeeAllText` | ipa-resolv-ghosts.py:160 | the text printed after a record is " Normal" when it contains `ldap://` and " *Ghost" otherwise |
| `Classifier.SeeAllMislabelsGenerationRecord` | ipa-resolv-ghosts.py:160 | a generation record, which the classifier never counts as a ghost, is listed as " *Ghost" |
| `Classifier.SeeAllCorrected` | ipa-resolv-ghosts.py:160 | the corrected listing labels " *Ghost" exactly the records in the ghost list |
| `Dn.EscapeEquals` | ipa-resolv-ghosts.py:123 | escaping leaves no `=` and adds two characters per `=` |
| `Dn.EscapeEqualsRoundTrip` | ipa-resolv-ghosts.py:123 | decoding the backslash-hex escapes of the escaped base DN restores it (for base DNs without backslashes) |
| `Dn.TargetDn` | ipa-resolv-ghosts.py:123 | the target DN starts with `cn=replica,cn=`, ends with `,cn=mapping tree,cn=config`, and has no `=` in between |
| `Dn.TargetDnRecoversBaseDn` | ipa-resolv-ghosts.py:123 | the base DN can be read back from between the fixed prefix and suffix of the target DN, when it holds no backslash |
| `Dn.TargetDnExample` | ipa-resolv-ghosts.py:123 | for `dc=example,dc=com` the target DN is `cn=replica,cn=dc\3Dexample,dc\3Dcom,cn=mapping tree,cn=config` |
| `Dn.TargetDnOfTwoComponents` | ipa-resolv-ghosts.py:123 | for every base DN `dc=<x>,dc=<y>` with plain values, the target DN is `cn=replica,cn=dc\3D<x>,dc\3D<y>,cn=mapping tree,cn=config` |
| `Dn.TargetDnSplitsBaseDn` | ipa-resolv-ghosts.py:123 | read as a DN, that target has five RDNs for every such base DN, and the third, `dc\3D<y>`, has no attribute type |
| `Dn.TargetDnSplitsExampleBaseDn` | ipa-resolv-ghosts.py:123 | in particular, the target DN of `dc=example,dc=com` has five RDNs, the third without attribute type |
| `Dn.EscapeValueRoundTrip` | ipa-resolv-ghosts.py:123 | the corrected escape decodes back to the base DN, for every base DN; it escapes `=` and the characters section 2.4 of RFC 4514 requires escaping anywhere in a value (`"`, `+`, `,`, `;`, `<`, `>`, `\`, the null character) |
| `Dn.TargetDnRfc4514` | ipa-resolv-ghosts.py:123 | the corrected target DN always has the four intended RDNs, the second being `cn=` and the escaped base DN |
| `Dn.TargetDnRfc4514RecoversBaseDn` | ipa-resolv-ghosts.py:123 | the value of the second RDN of the corrected target DN decodes to the base DN, for every base DN |
| `Directive.ReplicaIdField` | ipa-resolv-ghosts.py:125 | the replica id field exists exactly when the record has a space; it holds no space and is shorter than the record |
| `Directive.ReplicaIdOfTokens` | ipa-resolv-ghosts.py:125 | for any record `<first> <second>` followed by nothing or by a space, with no space in the two tokens, the field read is `<second>` without its last character |
| `Directive.ReplicaIdIsPositional` | ipa-resolv-ghosts.py:125 | the last character is cut whatever it is: `{replica 12 }` gives `1` |
| `Directive.ReplicaIdOfRecord` | ipa-resolv-ghosts.py:125 | for a record `{replica <id>}` followed by nothing or by a space, the field read is exactly `<id>` |
| `Directive.CleanupRequest` | ipa-resolv-ghosts.py:123-128 | a request exists exactly when the record has a space; it targets the code's target DN, sets `nsds5task`, and its value is `CLEANRUV` followed by the replica id field |
| `Directive.CleanupOfRecord` | ipa-resolv-ghosts.py:123-128 | for a record of the usual shape the request sets `nsds5task` to `CLEANRUV<id>` on the target DN |
| `Directive.CleanupOfReplicaThree` | ipa-resolv-ghosts.py:125 | the ghost record of replica 3 gives the value `CLEANRUV3` |
| `Confirm.PromptText` | ipa-resolv-ghosts.py:31-38 | the prompt is the question (default `Confirm`) followed by a space, the default letter in brackets, a vertical bar, the other letter, a colon and a space: `y` in brackets when the default is yes, `n` when it is no |
| `Confirm.Verdict` | ipa-resolv-ghosts.py:42-50 | the empty answer gives the default; `y`/`Y` give yes and `n`/`N` give no |
| `Confirm.Confirm` | ipa-resolv-ghosts.py:40-50 | the first decisive answer decides; every earlier answer was rejected; with no decisive answer every line is read and there is no decision |
| `Confirm.PromptShowsDefault` | ipa-resolv-ghosts.py:35-43 | the letter shown in brackets is what an empty answer decides, and the other letter decides the opposite |
| `Confirm.LaterAnswersUnread` | ipa-resolv-ghosts.py:40-50 | once an answer decides, lines after it are never read |
| `Confirm.RejectedAnswersSkipped` | ipa-resolv-ghosts.py:44-46 | rejected answers in front change nothing but the number of lines read |
| `Confirm.YesNeedsLetter` | ipa-resolv-ghosts.py:130 | with the default "no" used before a deletion, a yes needs a line reading exactly `y` or `Y` |
| `Resolver.ResolveOne` | ipa-resolv-ghosts.py:118-149 | a request is sent exactly when the action evaluates to 1, the record has a space, and the confirmation says yes; the request sent is the clean-up request of the record; the ghost is deleted exactly when the server accepts it; every other path leaves it ignored or declined; it reads no line at end of input, one line when the action is not 1 or the record has no space, and otherwise one line plus those the confirmation read |
| `Resolver.DeletePromptDefaultsToNo` | ipa-resolv-ghosts.py:130 | the confirmation line before a deletion is the question followed by `n` in brackets, a vertical bar and `y`: the default is no |
| `Resolver.ResolveEach` | ipa-resolv-ghosts.py:140-149 | one offer per record, in order, each starting and ending inside the input; every request sent is the clean-up request of its own record |
| `Resolver.OffersFollowInput` | ipa-resolv-ghosts.py:140-149 | each offer's outcome and the number of lines it read are exactly what the single-ghost step makes of the input from the offer's start |
| `Resolver.OffersReadInTurn` | ipa-resolv-ghosts.py:140-147 | the first offer starts reading at the start of the pass, and each later one where the previous one stopped |
| `Resolver.PassReadsToLastOffer` | ipa-resolv-ghosts.py:140-151 | a pass over no records reads nothing; otherwise it reads up to where the last offer stopped |
| `Resolver.Resolve` | ipa-resolv-ghosts.py:133-151 | only ghost records are offered, and every request is addressed to the target DN of the base DN |
| `Resolver.OffersFollowRecordList` | ipa-resolv-ghosts.py:138-140 | the offers are the ghosts in record-list order, and every ghost of the list is offered |
| `Resolver.NoKeyOneNoModify` | ipa-resolv-ghosts.py:146-147 | with no input line evaluating to 1, no request is ever sent |
| `Resolver.NoYesNoModify` | ipa-resolv-ghosts.py:130-131 | with no input line reading `y` or `Y`, no request is ever sent |
| `Resolver.ClosedInputIgnoresAll` | ipa-resolv-ghosts.py:145-149 | with input closed every ghost is ignored and nothing is read |
| `Resolver.DeleteOnConfirmedOne` | ipa-resolv-ghosts.py:118-131 | answering 1 and then `y` on a record with a replica id deletes it when the server accepts, reading two lines |
| `Menu.MenuPrompt` | ipa-resolv-ghosts.py:214 | the menu line is exactly the exit and "see all" entries followed by the ghost-pass entry when there are ghosts, and by a bare `: ` otherwise |
| `Menu.PromptOffersFixIffGhosts` | ipa-resolv-ghosts.py:214 | the menu line names the ghost pass exactly when there is at least one ghost |
| `Menu.Dispatch` | ipa-resolv-ghosts.py:216-223 | `0` exits; `1` shows the listing; `2` runs the ghost pass on the rest of the input; anything else does nothing; end of input ends the program. The round reads no line at end of input, two lines on `1` when a second line is there, one line plus those the ghost pass read on `2`, and otherwise one line |
| `Menu.MenuRound` | ipa-resolv-ghosts.py:194-228 | a failed record read ends the round with its error; no records ends it; otherwise the counts are the sizes of the three lists and the total, and the menu line matches the ghost count |
| `Menu.ModifyOnlyFromGhostPass` | ipa-resolv-ghosts.py:194-223 | a request is only sent after `2` was typed at a menu line that offered it; it is for a ghost record of this round's list and is addressed to the target DN |
| `Menu.FixWithoutGhostsDoesNothing` | ipa-resolv-ghosts.py:222-223 | typing `2` when there are no ghosts offers nothing and reads no further line |

## Left out

- Strings are modelled as sequences of characters, while a Python 2 `str` (what `raw_input` and python-ldap return) is a sequence of bytes. The two agree on ASCII text such as RUV records and the usual base DNs, because every needle the code searches for, splits on or replaces is ASCII. On non-ASCII text they differ: `[:-1]` (`PyStr.DropLast`) drops a whole character where Python drops one byte, and the lengths in the contracts of `PyStr.Replace`, `Dn.EscapeEquals` and `Dn.TargetDn` count characters, not bytes.
- LDAP I/O is not modelled: connecting, binding, searching and modifying (`f_init_ldap`, `f_ldap_search`, `f_ldap_modify`). The search result is a parameter; the modify outcome is the parameter `accepts`.
- Search failures end the program through `sys.exit`. They are I/O and are not modelled.
- `f_ldap_search` keeps only search-entry messages and stops at the first empty one. Its output is taken as given.
- `modlist.modifyModlist` is third-party code. The request is modelled as "`nsds5task` goes from empty to the directive value", not as the change list that library derives.
- Command-line parsing (`f_parse_args`, `f_print_usage`), the password prompt and the host-name lookup are not modelled.
- Printing is not modelled: banners, counts, the "Ghost RUV ignored." and "please enter y or n." messages. The counts are part of the round's result instead.
- The `main` loop repeats the round forever, with a fresh search each time. Only one round is modelled, because each repetition depends on the server's new state.
- Python 2 `input()` evaluates the typed text as an expression, which may have any side effect. Only the outcome of looking that value up in the action table is modelled, through `Choice`.
- The server's verdict `accepts` depends only on the request, so within one pass two ghosts with the same replica id get the same verdict. A server whose answer depends on earlier requests (refusing a second clean-up task for an id already being cleaned) is not modelled.
- The bare `except:` also catches interrupts (`KeyboardInterrupt`) raised during the ghost pass. Interrupts are not modelled.
- `Dn.EscapeValue` escapes each character on its own and does not escape a leading `#` or leading and trailing spaces, which RFC 4514 also requires. A base DN starts with an attribute type, so the leading cases cannot arise; a trailing space is left unescaped.

## Findings

| source | as written | input that shows it | evidently intended | confidence | as-written member | corrected member |
|---|---|---|---|---|---|---|
| ipa-resolv-ghosts.py:160 | the label test `"replicageneration" and "ldap://" in ruv` reduces to the URL test, because the literal is always true | the generation record `{replicageneration} 51dc3bac000000010000` is listed as " *Ghost" | " *Ghost" only for records with neither marker, matching the ghost list of line 138 | high, not executed | `Classifier.SeeAllMislabelsGenerationRecord` | `Classifier.SeeAllCorrected` |
| ipa-resolv-ghosts.py:123 | only `=` is escaped in the base DN, so its commas still separate RDNs | for `dc=example,dc=com` (and every `dc=<x>,dc=<y>`), the target DN has the RDN `dc\3Dcom`, which has no attribute type (five RDNs instead of four) | the whole base DN escaped as the value of a single `cn` RDN, as section 2.4 of RFC 4514 describes | medium, not executed | `Dn.TargetDnSplitsBaseDn` | `Dn.TargetDnRfc4514` |

The resolver and the menu keep the target DN as written: they model the request the program
actually sends. The corrected DN is defined and proved on its own.
