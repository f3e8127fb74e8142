# A verified model of the CLU compiler's type environment and its neighbours

The Portable CLU compiler keeps every type it meets in one hash table: a type
is found by its description, gets a small integer id, and two types are the
same when their ids are. The hash of a description is computed from the ids of
its component types, and those ids are zeroed, reused and compared while the
table is in use. This project models that environment and proves that it works,
together with what is built on it (canonicalisation of type trees and
substitution for identifiers), the buffered channel the object code goes
through, the passes over cluster definitions, the run-time cache of
instantiations, and the string buffer of the driver.

`dafny verify dfyconfig.toml` checks everything.

## How the model is laid out

| file | what it holds |
|---|---|
| Syntax, Shapes | type descriptions, definition units, identifiers; component types of a description and its image under a map of components |
| Hashing | the three hash functions and the similarity test |
| Placement | the core argument for any numbered objects in a table hashed by the numbers of others |
| TypeEnv | the types half of the environment as a value, its operations, its invariant `Inv` |
| ResetLists | exactly when `reset_types` leaves the table right, for any list in any order |
| TypeRuns | whole runs |
| TableMemo | the one-entry memo of the types table in whole runs, with descriptions in shared records |
| NameTable, IdentifierCodes, Identifiers | the table cluster for fixed keys; identifier codes as a state machine, and the mutable table that implements it |
| CompilerEnv | the environment as a mutable object, each method proved equal to its operation in TypeEnv |
| Meaning | the type tree that a type object stands for |
| Canon, Substitution | `c_type` and `b_type` over the mutable environment |
| CodeChannel | the object-code channel and the page its instances share |
| Scopes | the stack that gives identifiers back what they stood for, in any nest of scopes |
| ClusterOps, Requirements, Parameters | published operations and what is reported of them, requirements around a body, parameter lists |
| Instances | the instantiation cache |
| WordList | the circular list, its iterator, and the buffer |

The argument behind `Inv` is short. A component has a smaller nonzero id than
the types built from it; so when ids above a watermark are zeroed, whatever
survives has only surviving components, its description still reads the same
ids, and its bucket is still the one its hash names. `Placement` says this for
any objects, `TypeEnv` applies it, and `CompilerEnv` carries it to the object
that is updated in place.

`Meaning` gives types a meaning that does not mention ids: a map from type
objects to finite trees that satisfies one equation (`Denotes`). `c_type` and
`b_type` take such a map as a ghost argument and keep it, except that it grows
with the table. There always is one: `Meaning.AlwaysMeans` says so of every run,
the rewriting that `c_type` does in place included and whatever identifiers stand
for by then, and `Canon.ReadyAgain` of the environment once declarations have
changed what identifiers stand for. Their results are then stated as trees, and
`Meaning.SameTypeIffSameTree` turns equal trees into the very same object.

## Choices made where the source leaves room

- The similarity of component types is equality of their ids
  (`code/cmp/syntax.c:432-470`), not of references. `TypeEnv.SimilarIffSameRefs`
  shows that for live components there is no difference, and `TypeEnv.FindExact`
  says what that makes the table answer without speaking of similarity.
- A description is a value owned by its type object. In the source the record is
  shared by the parser's object and the canonical one that takes it over; the
  only later change to it is the replacement of its generator by the unit of the
  same name, which changes neither meaning nor bucket. `TableMemo` has the
  records and their sharing.
- `hash` on strings is an arbitrary function into the size of the table, and a
  generator is hashed by its unique name.
- The word vector of the object-code channel is not part of this model. A page is
  8192 bytes, as the channel's own constants have it; a word is four bytes, least
  significant first, and keeps the low 32 bits; a half word keeps 16.
- Each open, put, close and abort of the system either succeeds as a whole or is
  not possible for some reason. Which of them do is arbitrary.
- The word list of a buffer holds strings that contain no zero character.
- The basic types of a new environment are numbered by a loop over the ten
  fields, and the eight units are added by a loop over their names, which the
  source writes out one after the other; the three lists of a
  routine type are gone through by one loop over list numbers.
- In the instantiation cache the two parallel arrays of parameter values and
  requirements are one array of parameters. A type parameter always has an
  operations table, and a generator all its routines: the source follows the
  pointers without looking (`debug/new_parm_util.c:658-660`, `debug/new_parm_util.c:483`).
- Integer overflow is not modelled.

## Model

| member | source | states |
|---|---|---|
| Hashing.HashDescRange | code/cmp/ce.c:3583-4027 | every description hashes into [0, z) for every z of at least 4 |
| Hashing.HashDescRangeIsTight | code/cmp/ce.c:3583-4027 | and for no smaller z: all descriptions have a bucket if and only if z is at least 4 |
| Hashing.HashAddsUp | code/cmp/ce.c:3454-4027 | the hash of every form of description in closed form: a sum of what its parts contribute, ids of arguments weighted from 2 on and those of results from 5, modulo the size |
| Shapes.ImageTellsApart | code/cmp/ce.c:571-582 | with components standing for themselves, two descriptions read the same if and only if they are the same but for the unit object of their generator, whose names are equal |
| Shapes.MapDiffers | code/cmp/syntax.c:432-470 | reading one component differently makes the whole description read differently |
| Hashing.SimilarIffSameDesc | code/cmp/syntax.c:432-470 | two descriptions are similar exactly when reading the ids of their components gives the same thing (which tells apart whatever ImageTellsApart says) |
| Hashing.SimilarHashAlike | code/cmp/ce.c:3583-4027 | similar descriptions hash to the same bucket of the table |
| Hashing.FixupKeepsBucket | code/cmp/ce.c:3043-3131 | replacing the generator of a bound key by the unit of the same name leaves its bucket and its similarity class alone |
| Hashing.HashExprList | code/cmp/ce.c:3454-3572 | the loop over constants computes the specified hash of their types' ids, integers and strings |
| Hashing.HashFieldList | code/cmp/ce.c:3648-3703 | the loop over selectors computes the specified hash of name lengths times ids |
| Hashing.HashTypeList | code/cmp/ce.c:3747-3789 | the loop over argument or result types weighs the ids by position |
| Hashing.HashTypeabs | code/cmp/ce.c:3583-4027 | the whole hash of a description is the specified function of the present ids of its components |
| Placement.AddGood | code/cmp/ce.c:2987-3142 | numbering and binding an object whose parts are live, with a new description, keeps ids distinct, parts smaller, every object in the bucket its hash names, and one object for each description |
| Placement.FlushGood | code/cmp/ce.c:1652-1709 | zeroing every number above the watermark and dropping those objects keeps the same, provided survivors read as before |
| Placement.RemoveGood | code/cmp/ce.c:1106-1183 | so does zeroing and deleting one object that no live object uses |
| TypeEnv.FindSpec | code/cmp/ce.c:2858-2920 | probing the one bucket of the current hash decides for the whole table whether a similar live type exists |
| TypeEnv.LiveIffFound | code/cmp/ce.c:2858-2952 | a type has a nonzero id exactly when the table maps its description to it |
| TypeEnv.SimilarIffSameRefs | code/cmp/syntax.c:432-470 | descriptions of live components are similar if and only if they are the same description, component objects included, up to the unit object of an equal name: comparing ids is comparing references |
| TypeEnv.FindExact | code/cmp/ce.c:2858-2952 | for a description of live components the table answers a type if and only if it is live and has this very description, with the table's own unit for the generator |
| TypeEnv.EmptyInv | code/cmp/ce.c:370-851 | the empty environment satisfies the invariant |
| TypeEnv.AddDuInv | code/cmp/ce.c:3151-3246 | add_du keeps the invariant, and adds exactly the unit of that name, to be flushed, if there was none |
| TypeEnv.FixupInv | code/cmp/ce.c:2987-3142 | fixup keeps the invariant although it rewrites the generator of a key that is already bound |
| TypeEnv.GetTypeInv | code/cmp/ce.c:2858-2952 | get_type keeps the invariant, and afterwards the description is answered by the old type if there was one, else by the new one |
| TypeEnv.GetTypeAnswers | code/cmp/ce.c:2858-2952 | the answer is live and has the very description asked for, with the table's own unit for the generator |
| TypeEnv.GetTypeLeaves | code/cmp/ce.c:2858-2952 | an old type changes nothing; a new one has the next id, and every other type is left alone |
| TypeEnv.KeepInv | code/cmp/ce.c:1719-1786 | keep keeps the invariant; afterwards every known type is at or below the watermark, every unit is there and none is to be flushed, and nothing else has changed |
| TypeEnv.Reset1Inv | code/cmp/ce.c:1453-1555 | after reset1 exactly the types at or below the watermark are live, with their old ids, all of them are where their current hash says, and ids go on from the watermark |
| TypeEnv.ResetInv | code/cmp/ce.c:1242-1359 | the same for reset, which also drops exactly the units that are to be flushed |
| TypeEnv.AdoptInv | code/cmp/syntax.c:146-182 | type objects made outside the table, with id 0, do not disturb it, and no other object is touched |
| TypeEnv.DeadEditInv | code/cmp/cconst.c:1421-1510 | nor does rewriting the description of such an object |
| TypeEnv.ResetOneInv | code/cmp/ce.c:1124-1172 | one turn of reset_types keeps the invariant and kills exactly its type, when no live type is built from it |
| TypeEnv.ResetTypesInv | code/cmp/ce.c:1106-1183 | reset_types kills exactly the listed types above the watermark, gives every other type its old id and keeps every entry findable, when each listed type comes after all live types built from it |
| TypeEnv.ResetTypesIds | code/cmp/ce.c:1106-1183 | whatever the list and its order, reset_types zeroes the ids of exactly the listed types above the watermark |
| TypeEnv.ResetTypesNeedsUsers | code/cmp/ce.c:1106-1183 | leaving out a live type built from a listed one always breaks the table, whatever else is listed and in whatever order |
| ResetLists.TakesGoing | code/cmp/ce.c:1106-1183 | if users go too, no delete takes a type that stays, whatever the order |
| ResetLists.ResetTypesExact | code/cmp/ce.c:1106-1183 | for every list in any order the table is right afterwards if and only if all live users of what goes go too and every turn that zeroes an id finds something to delete |
| ResetLists.ResetTypesNeedsOrder | code/cmp/ce.c:1106-1183 | listing a type before the one live type built from it leaves the table right if and only if the other's description names the same bucket once the first id is 0 |
| ResetLists.ReturnedFirst | code/cmp/ce.c:1106-1183 | a type listed before the type returning it: if and only if its id is a multiple of the table size |
| TypeRuns.OrderCanMatter | code/cmp/ce.c:1106-1183 | two requests from the empty tables on lead to such a pair, where the wrong order breaks the table, so does leaving out the user, and the right order does not |
| TypeRuns.StepInv | code/cmp/ce.c:1106-3246 | get_type, add_du, reset_types and what happens to objects outside the table keep the invariant, called as the environment asks |
| TypeRuns.DropsInv | code/cmp/ce.c:1242-1786 | so do keep, reset1 and reset, whenever they are called |
| TypeRuns.EveryRun | code/cmp/ce.c:370-3246 | in every run: distinct ids in 1..next-1, live exactly when found, components smaller and nonzero, each live type in the one bucket its hash names, and its generator the table's own unit, kept if the type is |
| TypeRuns.StepKeeps | code/cmp/ce.c:370-3246 | no operation changes the id of a kept type or lowers the watermark, and none changes a description but c_type's rewriting of objects without an id |
| TypeRuns.KeptForever | code/cmp/ce.c:1719-1786 | after any further run a kept type has its id and is what the table answers for its description |
| TypeRuns.LiveAtKeep | code/cmp/ce.c:1719-1786 | so does, after any further run, every type that is live at a keep, whether or not it is the first keep |
| TypeRuns.ResetRestores | code/cmp/ce.c:1242-1786 | whatever was done since the last keep, reset brings back what there was then: the same live types with the same ids and descriptions, the next id, and the same units |
| NameTable.Table.constructor | lib/clu/table.clu:42-55 | a new table of that size and hasher, without bindings |
| NameTable.Table.GetPair | lib/clu/table.clu:246-267 | the value bound to the name, if any, from one bucket |
| NameTable.Table.Bind | lib/clu/table.clu:118-140 | binds, or signals exists and changes nothing, according to whether the name was bound |
| NameTable.Table.MBind | lib/clu/table.clu:144-167 | the value the name is bound to, after binding the given one if there was none |
| NameTable.Table.Alter | lib/clu/table.clu:171-191 | binds the name to the value, bound before or not, and changes no other |
| NameTable.Table.CondFlush | lib/clu/table.clu:69-89 | unbinds exactly the names whose value satisfies the predicate |
| NameTable.Table.Elements | lib/clu/table.clu:371-383 | yields exactly the bindings of the table, each once |
| IdentifierCodes.CodeIsHistory | code/cmp/ce.c:1851-2175 | the code of every name after any events since a flush is a function of the history alone |
| IdentifierCodes.LocalAnswersFirstLine | code/cmp/ce.c:2011-2101 | local answers a positive number exactly for names that are not external and were looked up first, and then the line of that lookup, or 1 if it had none |
| IdentifierCodes.LookupSignalsIffDeclaredFree | code/cmp/ce.c:1851-1990 | lookup signals local exactly when an earlier local of that name answered 0 |
| IdentifierCodes.FirstIs | code/cmp/ce.c:1851-2175 | the first event of a name, by its place in the history |
| IdentifierCodes.KindIsHistory | code/cmp/ce.c:1851-2175 | a name is known if and only if it was there at the flush or has had an event, and its kind is the one from the flush, or the one it was added with if that came first, or unknown |
| IdentifierCodes.LookupIsHistory | code/cmp/ce.c:1851-1990 | lookup signals local exactly for names that were declared and were there at the flush or not looked up first; otherwise it answers the kind from the flush, of the add that came first, or unknown |
| IdentifierCodes.FlushIsHistory | code/cmp/ce.c:980-1071 | a flush keeps exactly the names from the last one and those added before any use, with their kinds; lasting is exactly what was lasting, or was looked up under that flag, and was not declared |
| IdentifierCodes.PurelyLocal | code/cmp/ce.c:2011-2101 | names that are only declared keep code 0, the code of the record they share |
| IdentifierCodes.FlushesFlush | code/cmp/ce.c:980-1071 | either flush keeps exactly the permanent equates, with their kinds, and leaves none of them in use |
| Identifiers.IdTable.constructor | code/cmp/ce.c:370-851 | no names, and the two spare records with codes 0 and 1 |
| Identifiers.IdTable.Lookup | code/cmp/ce.c:1851-1990 | moves the name's code as the state machine says and answers its kind or signals as LookupIsHistory tells of any history; the spare records keep their codes |
| Identifiers.IdTable.Local | code/cmp/ce.c:2011-2101 | likewise for local, which may share one record among many names |
| Identifiers.IdTable.AddEntry | code/cmp/ce.c:2122-2175 | enters the name with its kind, or signals exists |
| Identifiers.IdTable.Flush | code/cmp/ce.c:878-920 | filtering every chain with that side effect takes the table to the flushed state of the machine |
| CompilerEnv.Library.GetDu | code/cmp/xlib.c:511-585 | the library's one unit of a name, made if need be |
| CompilerEnv.CompilerEnv.constructor | code/cmp/ce.c:370-851 | create: ten basic types with ids 1 to 10, watermark 10, and a sound environment |
| CompilerEnv.CompilerEnv.CreatedTypes | code/cmp/ce.c:400-747 | and which they are: unknown, the six clusters by name, type, cvt and any, without parameters, under the ids 1 to 10 |
| CompilerEnv.CompilerEnv.CreatedUnits | code/cmp/ce.c:600-835 | the known units are exactly those of the basic types and the eight of selectors and routines, none to be flushed |
| CompilerEnv.CompilerEnv.AddDu | code/cmp/ce.c:3151-3246 | the table's own unit for the name, else the library's, now in the table to be flushed; no other entry changes |
| CompilerEnv.CompilerEnv.BindType | lib/clu/table.clu:118-140 | binds at the head of the bucket that the present ids name, unless a similar key is there |
| CompilerEnv.CompilerEnv.Fixup | code/cmp/ce.c:2987-3142 | the new state is the specified one: next id, bound under the old generator, then the shared generator |
| CompilerEnv.CompilerEnv.GetType | code/cmp/ce.c:2858-2952 | answers the similar type and changes nothing, or a new type after fixup, under the next id; either way a type with a nonzero id that has the very description asked for, with the table's own unit; the answer tells which |
| TableMemo.GetPairFinds | lib/clu/table.clu:246-267 | with the memo right, get_pair answers what a probe of the table finds, and the memo is right again |
| TableMemo.ListMemo | lib/clu/table.clu:319-339 | reset_types, called as the environment asks, forgets the memo or changes nothing, though a delete forgets it only when it finds its key |
| TableMemo.DoGood | code/cmp/ce.c:370-3246 | each operation with the memo takes the environment where it goes without one, and keeps the memo right |
| TableMemo.MemoSaysWhatProbeFinds | lib/clu/table.clu:246-267 | in every run, while ids are zeroed and reused and records are shared and rewritten, get_pair answers what a fresh probe finds |
| CompilerEnv.CompilerEnv.Keep | code/cmp/ce.c:1719-1786 | the new state is the specified one: every type has an id of at most the watermark, which is the last id given, and every unit stays, none to be flushed |
| CompilerEnv.CompilerEnv.FlushChain | code/cmp/ce.c:1652-1709 | on one chain, ids above the watermark become 0 and their types leave the chain |
| CompilerEnv.CompilerEnv.Reset1 | code/cmp/ce.c:1453-1555 | both halves are flushed as specified and every unit forgets its specs |
| CompilerEnv.CompilerEnv.Reset | code/cmp/ce.c:1242-1359 | the same, and the units that are not kept leave their table |
| CompilerEnv.CompilerEnv.ResetEntries | code/cmp/ce.c:878-920 | only the identifiers change, as the lasting flush says |
| CompilerEnv.CompilerEnv.Delete | lib/clu/table.clu:319-339 | the first similar key leaves the bucket that the present ids name |
| CompilerEnv.CompilerEnv.ResetTypes | code/cmp/ce.c:1106-1183 | for any list exactly the listed types above the watermark lose their ids, and the environment is valid afterwards if and only if users go too and every turn finds something to delete, as when users come first |
| Meaning.SameTypeIffSameTree | code/cmp/ce.c:2858-2952 | two live types are one object exactly when they stand for the same tree |
| Meaning.FoundMeans | code/cmp/ce.c:2858-2920 | a live type similar to a description stands for what the description does |
| Meaning.TreeTellsDesc | code/cmp/ce.c:2858-2920 | conversely a live type that stands for what a description of live components does has that very description, but for the unit object |
| Meaning.FixupMeans | code/cmp/ce.c:2987-3142 | a newly bound type stands for what its description does, and no other type changes meaning |
| Meaning.PlainFromDenotes | code/cmp/cconst.c:1308-1678 | objects that have meanings, whatever identifiers stand for, have trees with the identifiers left in |
| Meaning.LookedDenotes | code/cmp/cconst.c:2215-2443 | identifiers may come to stand for anything canonical: every type object has a meaning again, and live ones keep theirs |
| Meaning.EditMeans | code/cmp/cconst.c:1421-1510 | replacing components of an object without an id by canonical types builds nothing into itself and keeps the trees of live types |
| Meaning.RunsKeepTrees | code/cmp/ce.c:370-3246 | in every run, c_type's rewriting included, every type object has its tree; kept types keep theirs for ever, and without rewriting all do, while ids are zeroed and reused |
| Meaning.AlwaysMeans | code/cmp/ce.c:370-3246 | so in every run there is a meaning for every object under whatever kinds identifiers have |
| Canon.MakeType | code/cmp/ce.c:2858-2952 | get_type answers a live type standing for the description it was given |
| Canon.CType | code/cmp/cconst.c:1308-1678 | the answer is live and stands for the same tree, objects of the tree are rewritten without changing meaning, a canonical type is its own answer |
| Canon.CFields | code/cmp/cconst.c:1445-1476 | every selector type of the record is replaced in place by its canonical type |
| Canon.CTypeList | code/cmp/cconst.c:1899-1962 | the list of canonical types of the list, one for one |
| Canon.CRoutine | code/cmp/cconst.c:1476-1510 | arguments, results and the types of every signal are replaced by their canonical types |
| Canon.CheckType | code/cmp/cconst.c:1308-1678 | for any finite tree, shared parts allowed, c_type ends with a nonzero id and the tree's own meaning, and is idempotent; a parameter gives its own type, an equated identifier the type it is equated to, other identifiers unknown; a selector or routine type has canonical parts afterwards, and the answer has its very description |
| Canon.CheckTwo | code/cmp/cconst.c:1308-1678 | two trees get the same reference exactly when they mean the same |
| Canon.WithPartMeans | code/cmp/cconst.c:1476-1510 | replacing a list of a routine type by one of the same meanings keeps the meaning |
| Canon.ReadyAgain | code/cmp/cconst.c:1308-1678 | after declarations have changed kinds c_type and b_type can go on, with the same meaning for every canonical type |
| Canon.Rewrite | code/cmp/cconst.c:1421-1510 | each rewriting of an object by c_type is a step that runs of the environment allow |
| Canon.CreatedMeans | code/cmp/ce.c:370-851 | a new environment has trees to start from |
| Substitution.ImageSubstitutes | code/cmp/build.c:977-1356 | the recursive substitution of equated identifiers satisfies the one-level equations |
| Substitution.SubstUnique | code/cmp/build.c:977-1356 | and nothing else does |
| Substitution.ImageOfIdn | code/cmp/build.c:1172-1240 | an equated identifier becomes what it is equated to, or unknown if that is no type; other identifiers, type types and types without parts stay |
| Substitution.ImageOfLists | code/cmp/build.c:1031-1320 | a selector, routine or returning type has each part replaced by what the part becomes, names kept, one for one |
| Substitution.ImageOfParms | code/cmp/build.c:1001-1300 | the others have each constant replaced that is a type or an equated identifier, and keep the rest |
| Substitution.UnmentionedSame | code/cmp/build.c:977-1356 | a type that mentions no identifier equated to something else than itself is its own image |
| Substitution.MentionedOther | code/cmp/build.c:977-1356 | and one that does mention such an identifier becomes another type |
| Substitution.BuiltMeans | code/cmp/build.c:1001-1320 | a description rebuilt from the images of its parts stands for the image of the whole, whatever its form |
| Substitution.BIdn | code/cmp/build.c:1172-1240 | an identifier gives the type it is equated to, unknown if that is no type, else itself |
| Substitution.BType | code/cmp/build.c:977-1356 | ends, and answers the canonical type of the image |
| Substitution.BTypeList | code/cmp/build.c:1360-1423 | one for one on a list |
| Substitution.BExpr | code/cmp/build.c:1436-1662 | a constant with its type or its identifier replaced |
| Substitution.BExprList | code/cmp/build.c:1666-1729 | one for one on a list |
| Substitution.BRoutine | code/cmp/build.c:1098-1172 | a routine type rebuilt from the images of its signals, arguments and results |
| Substitution.SubstituteType | code/cmp/build.c:977-1356 | b_type answers the one type of the substituted tree; it is the very same reference if and only if the type mentions no identifier equated to something else, and for an equated identifier alone it is what that is equated to |
| CodeChannel.RecordSize | code/cmp/cdchan.c:247-295 | the size that write adds is the length of the record, a whole number of words |
| CodeChannel.RecordReadsBack | code/cmp/cdchan.c:416-953 | given the two sizes, base, code, padding and half words (an odd last one with its zero) are read back from a record |
| CodeChannel.RecordBytes | code/cmp/cdchan.c:228-295 | each byte of the base and of the half words, from the lowest on |
| CodeChannel.EveryRecordStays | code/cmp/cdchan.c:228-408 | after any writes the k-th record lies whole at the running size of its moment, on a word boundary |
| CodeChannel.CodeChan.Put | code/cmp/cdchan.c:309-347 | a full page goes out after what went before, or the error is latched with its reason; nothing is tried after an error |
| CodeChannel.CodeChan.Boutput | code/cmp/cdchan.c:416-681 | the bytes and their padding are appended to the stream across any number of pages |
| CodeChannel.CodeChan.Output | code/cmp/cdchan.c:684-953 | the half words are appended in pairs, an odd one with a zero |
| CodeChannel.CodeChan.Write | code/cmp/cdchan.c:228-408 | answers the length of the stream so far and appends exactly one record; until a put fails, what was delivered and the page make up the stream, then what was delivered stays the same prefix |
| CodeChannel.CodeChan.GetChan | code/cmp/cdchan.c:956-1050 | without an error everything written has been delivered |
| CodeChannel.CodeChan.Size | code/cmp/cdchan.c:1053-1086 | the length of the stream |
| CodeChannel.CodeChan.Close | code/cmp/cdchan.c:1090-1288 | delivers the rest and closes, or aborts and signals the reason of the first failure; closing again does nothing |
| CodeChannel.CodeChans.Open | code/cmp/cdchan.c:100-225 | signals why the channel underneath cannot be opened and changes nothing, or takes the spare page if there is one; no two channels in use share a page |
| CodeChannel.CodeChans.Write | code/cmp/cdchan.c:228-408 | appends to the one stream; writing a channel in use disturbs no other; writing a closed one puts nothing and disturbs none unless a channel in use has taken over its page, then that one exactly if it has not failed and does not find there what it left |
| CodeChannel.CodeChans.GetChan | code/cmp/cdchan.c:956-1050 | handing out the channel underneath disturbs none, closed or not |
| CodeChannel.CodeChans.Close | code/cmp/cdchan.c:1090-1288 | delivers everything, or signals the reason of the first failure and aborts, or the reason why the channel underneath cannot be closed; the page of the closed channel becomes the spare one and belongs to no channel in use; closing again changes nothing |
| Scopes.ScopeStack.EndScope | code/cmp/cenv.c:943-1036 | every identifier saved in the scope gets back the kind before its first entry there, and the stack is cut to where the scope began |
| Scopes.ScopeStack.Declare | code/cmp/cenv.c:4405-4532 | the old kind goes on the stack, and an identifier that stood for something is reported |
| Scopes.ScopeStack.Scopify | code/cmp/cenv.c:4655-4698 | a new identifier will be unknown at the end of the scope |
| Scopes.ScopeStack.Perform | code/cmp/cenv.c:900-1036 | any sequence of beginnings, ends and declarations does to kinds and stack what the value model says |
| Scopes.ScopeRestores | code/cmp/cenv.c:900-1036 | whatever is declared in a scope and the scopes nested in it, at its end every identifier stands for what it stood for, or is a new one and unknown, and the stack is what it was |
| Scopes.UndoneIs | code/cmp/cenv.c:943-1036 | what an identifier gets back is the kind of its earliest entry, or it keeps its own if it has none |
| ClusterOps.SetupOpers | code/cmp/cdefn2.c:265-497 | exported identifiers stand for their operations; any other definition gets a new identifier whose name is the percent sign and the old name, and names that differed still differ unless an exported one begins with the sign; something is reported exactly as FaultyIff says; the end of the scope undoes it |
| ClusterOps.NamesApart | code/cmp/cdefn2.c:400-440 | so is the renaming of any list of definitions: one-to-one on names unless an exported one begins with the sign |
| ClusterOps.FaultyIff | code/cmp/cdefn2.c:265-497 | reported is: an exported identifier that stood for something or is not defined, another that is defined and stood for something, or any that is defined twice |
| ClusterOps.SelectIs | code/cmp/cdefn2.c:729-806 | choosing from a list keeps exactly what is chosen, in its order |
| ClusterOps.TypeSpecs | code/cmp/cdefn2.c:729-806 | a stable partition of the specified operations, and the size of its first part |
| ClusterOps.TypeInfo | code/cmp/build.c:239-324 | one rebuilt operation for each, in order |
| ClusterOps.PublishedIffUnsigned | code/cmp/cdefn2.c:163-233 | cutting the rebuilt list to that size gives the exported definitions in order if and only if no exported name begins with the percent sign |
| ClusterOps.TypeDefn | code/cmp/cdefn2.c:36-244 | the published list and the report under those conditions, from renaming to the final cut, and every identifier as it was |
| Requirements.OwedIsAdded | code/cmp/cdefn2.c:1944-2027 | as many operations are taken from an identifier as were added to it, however often it is listed |
| Requirements.OpersForIs | code/cmp/cdefn2.c:1871-1939 | the operations of each requirement stand together in what is added, behind those of the requirements before it |
| Requirements.AddRequires | code/cmp/cdefn2.c:1871-1939 | a type parameter keeps its operations and gets those of all its requirements behind them, in order; no other identifier changes |
| Requirements.RemRequires | code/cmp/cdefn2.c:1944-2027 | takes away what is owed without ever trimming below what was there before |
| Requirements.InScope | code/cmp/cdefn2.c:1658-1866 | whatever a body declares in its scope, identifiers that are not new in it end as they began |
| Requirements.AroundBody | code/cmp/cdefn2.c:1558-1650 | adding requirements, checking any body in its scope and removing them restores every kind |
| Parameters.CParameters | code/cmp/cdefn1.c:763-842 | the flattened list, each identifier replaced by the one it is equated to, as a constant or as a type |
| Parameters.FlatAt | code/cmp/cdefn1.c:763-842 | in the flattened list the identifiers of each declaration stand together, behind those of the declarations before it |
| Parameters.PushParm | code/cmp/cenv.c:4266-4401 | the old identifier is equated to the canonical type of a type parameter, to a constant parameter itself, and to an error otherwise, and the end of the scope will undo it |
| Parameters.PushParms | code/cmp/cdefn1.c:1059-1174 | on a list of the flattened length no index is out of bounds, every declaration keeps its number of identifiers, and flattening gives the list back; if identifiers are declared once each and replaced by other parameters, each old one stands for its new one; the end of the scope gives the old ones back what they stood for and may make the new ones unknown |
| Instances.SameAnswerIffSameRequest | debug/new_parm_util.c:617-680 | over any requests answered so far, two got the same table exactly when generator, code address and all parameters match |
| Instances.MatchIs | debug/new_parm_util.c:617-680 | requests match if and only if generator, code address and number of parameters are the same, and each two parameters are the same constant or types with one block of own variables |
| Instances.SameOwnsIffSameTypeParms | debug/new_parm_util.c:192-246 | over any requests answered so far, types and their operations share the own variables of a type exactly when they were asked for on the same generator and matching type parameters |
| Instances.Cache.WholeRun | debug/new_parm_util.c:76-313 | over every sequence of requests from the empty cache on: one table if and only if generator, code address and number of parameters are the same and each two parameters are the same constant or types with one block of own variables; operations and procedures share their own variables exactly then, and never with a type |
| Instances.Cache.WholeRunOwns | debug/new_parm_util.c:192-246 | and types and operations have the own variables of a type in common if and only if the generators are the same and the parameters that the type takes match in that way |
| Instances.AddMemo | debug/new_parm_util.c:682-707 | adding the answer to a request that nothing matches keeps the cache a faithful memo |
| Instances.BuildParmOpsTable | debug/new_parm_util.c:462-489 | new routines with the generator's code, closed over the instance's own variables; the generator's table is not touched |
| Instances.NamedIs | debug/new_parm_util.c:334-350 | the first operation of a required name, or none exactly if the type has none of that name |
| Instances.SelectedIs | debug/new_parm_util.c:315-365 | slot by slot the first operation of the required name, or none exactly if there is none, and debug_print last |
| Instances.HoldAllIs | debug/new_parm_util.c:105-126 | a block holds constants as they are and for each type a table of its own variables and the selected operations |
| Instances.BuildParmTable | debug/new_parm_util.c:315-365 | the required operations of a type parameter in order, missing ones marked, and the debugger's; passed on, the table matches the parameter itself |
| Instances.Cache.FindOps | debug/new_parm_util.c:617-680 | finds the entry that matches the request, or that there is none; too many parameters end the process |
| Instances.Cache.AddOps | debug/new_parm_util.c:682-707 | appends the entry and nothing else; filling the arrays ends the process |
| Instances.Cache.FindTypeInstance | debug/new_parm_util.c:76-126 | the request has its one answer; a new one is a new table with new own variables that hold the constants and the tables of the type parameters |
| Instances.Cache.FindTypeopInstance | debug/new_parm_util.c:192-246 | the same for an operation, on the own variables of its type's instance, with its own parameters in a block of its own |
| Instances.Cache.FindProciterInstance | debug/new_parm_util.c:266-313 | the same for a procedure or iterator |
| WordList.WordList.constructor | driver/wordlist.c:16-22 | the circle of one |
| WordList.WordList.Append | driver/wordlist.c:39-53 | the circle stays a circle, next and prev undo each other and its size is right, and it gains that word at the end |
| WordList.WordList.Size | driver/wordlist.c:61-65 | the number of appended words |
| WordList.WordList.Empty | driver/wordlist.c:55-59 | true exactly when nothing was appended |
| WordList.WordList.First | driver/wordlist.c:67-71 | the first appended word |
| WordList.WordIter.constructor | driver/wordlist.c:78-85 | stands before the first word |
| WordList.WordIter.IsValid | driver/wordlist.c:93-97 | false exactly after all words |
| WordList.WordIter.Next | driver/wordlist.c:99-103 | passes one word |
| WordList.WordIter.Element | driver/wordlist.c:105-109 | the word it stands at |
| WordList.Buffer.Append | driver/buffer.c:36-41 | the contents grow by the word |
| WordList.Buffer.Extract | driver/buffer.c:43-75 | a new array of exactly the length of the contents and a final zero, filled within its bounds |
| WordList.Copy | driver/buffer.c:16-27 | equal contents, no cell in common |

## Left out

- The system underneath: files, event deferral, allocation failure, garbage collection, processes; `_chan`, `_wordvec` and `_bytevec` are not part of this model.
- CompilerEnv.CompilerEnv.GetType: probes without the one-entry memo of the table cluster; that the memo answers the same is proved of the value model in TableMemo. The memos of the tables with fixed names are left out.
- Canon.CType: constants in parameter lists are taken to be canonical already, and descriptions the parser leaves for later (`xclu`, `xsel`) are not modelled; error reports, the rechecking pass `c_type1` and the checking of cluster parameters are not either.
- Canon.CIdnType: identifiers of unknown kind are looked up by `c_env` first; here they count as errors.
- Substitution.BExpr: only constants that can be parameters are modelled, so not invocations, operator references and `force`; the type field of an expression is left out.
- Substitution.BType: the units of rebuilt types are the table's own afterwards, but what `c_env` does beside `get_type` is not modelled.
- ClusterOps.SetupOpers: that something is reported is modelled, not the text of the report, nor the entry that a declaration makes among the identifiers of the environment, which decides only the text.
- ClusterOps.TypeDefn: the checking of one operation and its rebuilding are parameters, and what happens to modules between the passes is left out.
- Requirements.AroundBody: of the body only what it does to kinds and scopes is modelled; an equate, which is saved first and given its kind later, counts as a declaration.
- Instances.Cache.FindTypeInstance: the counters of missing functions and the `update_` procedures, which fill in missing entries when an instance is found again, are left out.
- IdentifierCodes.FlushesFlush: `flush_entries`, which drops every entry, is left out.
- The rest of `c_env`, `c_expr`, `c_stmt`, definition specs, the debugger and the driver's command line.
