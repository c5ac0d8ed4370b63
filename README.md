# Neo4j graph loader: identifier sanitising and query assembly

This project models the part of `load_neo4j.py` that turns untrusted JSON into
Cypher, and proves properties of that model in Dafny. The script loads a
knowledge graph (a list of `entities` and a list of `triplets`) into Neo4j.
Labels, property keys and relationship types cannot be query parameters, so
they are spliced into the query text. Before that, `sanitize_identifier` and
`rel_type_safe` clean them.

Modules:

- `Wrappers` (`wrappers.dfy`): `Option` (Python's `None`) and `Result` (an
  exception becomes a `Failure`).
- `CharClasses` (`chars.dfy`): the character predicates the regular expressions
  and string methods rely on: `\w`, whitespace, and `str.upper` per character.
  They are a parameter `cc`. `WellFormed(cc)` lists the facts the proofs use,
  and `Ascii()` is one instance that satisfies them.
- `Sanitizer` (`sanitize.dfy`): `sanitize_identifier` as its four steps. These
  are `None` to "", delete backticks, keep `\w`/whitespace/`-`, and strip.
- `RelType` (`reltype.dfy`): `rel_type_safe`. This is the run-collapsing
  substitution `[\s\-]+` → `_`, then `[^\w]` → `_`, upper-casing, and the
  `RELATED_TO` fallback.
- `Text` (`text.dfy`): `str.join`, a one-character `split`, and character
  counting.
- `Loader` (`loader.dfy`): `create_entity` and `create_relationship_native` up
  to `tx.run`. Each is a method that returns the query pieces (`EntityWrite`,
  `RelationshipWrite`) and the parameter map, or the error the Python code
  raises. The loop over an entity's properties is the method
  `AddProperties`. `EntityQuery` and `RelationshipQuery` give the Cypher text.

The central results are these:

- The relationship type spliced between backticks is always a non-empty
  upper-case token of word characters (`RelTypeSafeIsSafeToken`), and
  `rel_type_safe` is idempotent (`RelTypeSafeIdempotent`). Both hold for an
  `upper` that maps each character to one word character, which is what
  `WellFormed` demands. Python's `str.upper` is not always like that:
  `"ǰ".upper()` is `J` followed by the combining caron U+030C, which is not
  `\w`. So `rel_type_safe("ǰ")` holds a non-word character and is changed by
  a second application. No upper case contains a backtick, whitespace or `-`,
  so the type has no backtick and the query holds exactly the two backticks
  that quote it (`RelationshipQueryQuoting`).
- Each maximal run of whitespace and `-` becomes exactly one `_`
  (`CollapseMaximalRun`).
- The label clause reads back as exactly the sanitised labels
  (`LabelsClauseRoundTrip`).
- Every item of the SET clause names a parameter that is bound
  (`EntityParamsBindAll`). With the corrected safe key of "Findings", that
  name is a single word token, so Cypher reads all of it after `$`
  (`EntityParamTokens`). With line 78 as written it need not be
  (`TabKeyBreaksParameter`). The dynamic properties can
  never overwrite a base parameter (`EntityParamsDefaults`).
- The only backticks in the entity query are the two around each label and
  the two around each dynamic property name (`EntityQueryQuoting`).

The inline comment at load_neo4j.py:19 says dashes become underscores. The
code at line 20 keeps `-`, and so does this model. Dashes become `_` only in
property keys (line 78) and in relationship types (line 29).

The safe property key of line 78 replaces only `" "` and `-`, so a tab or a
newline inside a key reaches the parameter name after `$`. This model's
`SafeKey` replaces every whitespace character; the line as written is
`SafeKeyAsWritten`. The two agree on every key whose only whitespace is
`" "` (`SafeKeyAgrees`). See "Findings".

## Model

| member | source | states |
|---|---|---|
| `Sanitizer.RemoveBackticks` | load_neo4j.py:17 | the result has no backtick; a character occurs in it iff it occurs in the input and is not a backtick; input without backticks is unchanged |
| `Sanitizer.RemoveBackticksConcat` | load_neo4j.py:17 | deleting backticks distributes over concatenation, so every other character is kept, in order and as often as it occurs |
| `Sanitizer.KeepSafe` | load_neo4j.py:20 | every character left is a word character, whitespace or `-`; a character occurs in the result iff it occurs in the input and is one of those; safe input is unchanged |
| `Sanitizer.Strip` | load_neo4j.py:21 | neither end of the result is whitespace; it has only characters of the input; input whose ends are not whitespace is unchanged |
| `Sanitizer.SanitizeIdentifier` | load_neo4j.py:9-22 | `None` gives ""; every character is a word character, whitespace or `-`, and none is a backtick; no whitespace at either end; every character comes from the input |
| `Sanitizer.SanitizeIdempotent` | load_neo4j.py:9-22 | sanitising a sanitised string changes nothing |
| `Sanitizer.StripRemovesOnlyEdges` | load_neo4j.py:21 | the input is the stripped string with an all-whitespace prefix and an all-whitespace suffix around it |
| `Sanitizer.KeepSafeConcat` | load_neo4j.py:20 | the character filter distributes over concatenation, so it keeps the safe characters in order |
| `Sanitizer.BacktickRemovalRedundant` | load_neo4j.py:17-20 | deleting backticks first gives the same result as the filter alone, because a backtick is not safe |
| `RelType.DropSeps` | load_neo4j.py:29 | the greedy `[\s\-]+` match consumes only separators and stops at a non-separator or the end; the rest is a suffix of the input |
| `RelType.Collapse` | load_neo4j.py:29 | every output character is `_` or a non-separator character of the input; the output is empty iff the input is |
| `RelType.CollapseSepFree` | load_neo4j.py:29 | a string without whitespace or `-` passes through unchanged |
| `RelType.CollapseMaximalRun` | load_neo4j.py:29 | a maximal run of whitespace/`-` between non-separators becomes exactly one `_`, and the two sides collapse independently |
| `RelType.ReplaceNonWord` | load_neo4j.py:30 | the length is kept; a word character stays where it is and every other character becomes `_`; an all-word string is unchanged |
| `RelType.ReplaceNonWordIsWord` | load_neo4j.py:30 | after the substitution every character is a word character, whatever the input |
| `RelType.UpperAll` | load_neo4j.py:31 | the length is kept and each character is the upper case of the character at the same place |
| `RelType.UpperAllIdempotent` | load_neo4j.py:31 | upper-casing an upper-cased string changes nothing |
| `RelType.RelTypeSafe` | load_neo4j.py:24-34 | the relationship type is never empty; `None` gives `RELATED_TO` |
| `RelType.ReplaceNonWordIsNoOp` | load_neo4j.py:28-30 | after sanitising and collapsing only word characters remain, so the substitution of line 30 changes nothing |
| `RelType.RelTypeSafeCases` | load_neo4j.py:26-33 | the fallback branch is taken iff the input is `None` or sanitises to ""; otherwise the result is the upper-cased collapsed sanitised string |
| `RelType.RelTypeSafeIsSafeToken` | load_neo4j.py:24-34 | the result is non-empty, all word characters, already upper case, and free of whitespace, `-` and backticks |
| `RelType.RelTypeSafeFixesTokens` | load_neo4j.py:24-34 | any non-empty upper-case token of word characters is its own relationship type |
| `RelType.RelTypeSafeIdempotent` | load_neo4j.py:24-34 | applying `rel_type_safe` to its own result changes nothing |
| `RelType.FallbackIsFixed` | load_neo4j.py:118 | the default predicate `RELATED_TO` maps to itself |
| `RelType.PunctuationFallsBack` | load_neo4j.py:32-33 | punctuation that sanitises to nothing falls back to `RELATED_TO` |
| `Text.Join` | load_neo4j.py:59 | joining no parts gives ""; one part gives that part; the first part is a prefix of the result; `SplitJoin` undoes it |
| `Text.SplitJoin` | load_neo4j.py:59 | splitting `sep.join(parts)` at `sep` gives back `parts` when no part contains `sep` |
| `Loader.Truthy` | load_neo4j.py:58 | no contract of its own: Python truthiness of a label, `None` and "" are false; `SanitizedLabelsSingle` states how the comprehension uses it |
| `Loader.LabelList` | load_neo4j.py:56 | an absent `label` gives `["Entity"]`; a given list is iterated as it is |
| `Loader.SanitizedLabels` | load_neo4j.py:58 | no more labels than given; every character of every label is a safe character and not a backtick; `SanitizedLabelsConcat` and `SanitizedLabelsSingle` fix it as the filter-and-map of the comprehension |
| `Loader.SanitizedLabelsConcat` | load_neo4j.py:58 | the labels kept from `a + b` are those kept from `a` followed by those kept from `b`, so the input order is kept |
| `Loader.SanitizedLabelsSingle` | load_neo4j.py:58 | one label is kept, sanitised, exactly when it is truthy (`if l`) |
| `Loader.LabelsClause` | load_neo4j.py:58-59 | the clause is never empty and opens with a backtick, so `CREATE (n:)` cannot occur |
| `Loader.LabelsClauseRoundTrip` | load_neo4j.py:56-59 | read back as Cypher reads it (split at `:`, unquote), the label clause is exactly the sanitised truthy labels in order, or `Entity` when none is left |
| `Loader.LabelsClauseQuoting` | load_neo4j.py:58-59 | the clause holds exactly two backticks per label (two for `Entity`), so no label ends its quoting early |
| `Loader.PunctuationLabelBecomesEmptyLabel` | load_neo4j.py:58-59 | a truthy label that sanitises to "" still yields an empty quoted label "``" |
| `Loader.Quote` | load_neo4j.py:58 | the result is the name between two backticks: two characters longer, a backtick at each end, the name in between |
| `Loader.Render` | load_neo4j.py:61-66 | no contract of its own: `RenderShape`, `FixedItemsText` and `PropertyAssignment` state the text of the items |
| `Loader.RenderShape` | load_neo4j.py:61-66 | a rendered SET item starts with `n.` and ends with `$` and the parameter name |
| `Loader.FixedItemsText` | load_neo4j.py:61-66 | the base items (`BaseAssignments`) render as the four literals of `base_set`, and the metadata item (`MetadataAssignment`) as the literal of line 88 |
| `Loader.BaseParams` | load_neo4j.py:67-72 | the map has exactly the keys `id`, `name`, `description` and `original_text` |
| `Loader.PropertyList` | load_neo4j.py:76-77 | no `properties` gives no items; otherwise the items in iteration order |
| `Loader.ReplaceChar` | load_neo4j.py:78 | the length is kept; every `a` becomes `b` and every other character stays where it is; no `a` is left when `a != b` |
| `Loader.SafeKeyAsWritten` | load_neo4j.py:78 | line 78 as written: at each position of the sanitised key, `" "` and `-` become `_` and every other character stays; no `" "` and no `-` are left |
| `Loader.SafeKey` | load_neo4j.py:78 | no contract of its own: `SafeKeyChars` fixes it position by position, `SafeKeyIsWord` and `SafeKeyAgrees` relate it to word characters and to line 78 |
| `Loader.SafeKeyChars` | load_neo4j.py:78 | a safe key is as long as the sanitised key; `" "`, `-` and other whitespace become `_`, every other character stays where it is; so no space, `-`, other whitespace or backtick is left, and it is empty iff the sanitised key is |
| `Loader.SafeKeyIsWord` | load_neo4j.py:78 | with Python's character classes, a safe key consists of word characters only |
| `Loader.SafeKeyAgrees` | load_neo4j.py:78 | for a key whose only whitespace is `" "`, the safe key is exactly the one line 78 computes |
| `Loader.ParamTokenIsWord` | load_neo4j.py:78-82 | `prop__<safe key>` is a non-empty word token, so `$prop__<safe key>` names exactly that parameter |
| `Loader.TabKeyBreaksParameter` | load_neo4j.py:78-82 | as written, the key "a\tb" gives the item ``n.`a\tb` = $prop__a\tb``, with whitespace inside the parameter name; the model's safe key is "a_b" |
| `Loader.ParamName` | load_neo4j.py:81 | the parameter name is `prop__` followed by the safe key, six characters longer |
| `Loader.PropertyAssignment` | load_neo4j.py:81-82 | the item renders as the f-string of line 82: ``n.`<safe key>` = $prop__<safe key>`` |
| `Loader.PropItem` | load_neo4j.py:79-82 | a property yields no item iff its safe key is empty (`continue`), otherwise exactly its `PropertyAssignment` |
| `Loader.KeyedProperties` | load_neo4j.py:77-78 | one keyed property per property; `KeyedAt` states what each one is |
| `Loader.KeyedAt` | load_neo4j.py:77-78 | position i of the keyed properties holds the safe key and the value of property i |
| `Loader.PropAssignments` | load_neo4j.py:75-82 | at most one SET item per property; every item is backtick-quoted, names a non-empty property and uses the parameter `prop__<property>` |
| `Loader.PropParams` | load_neo4j.py:81-83 | no contract of its own: `PropParamsKeys`, `PropParamsLastWins` and `PropParamsPrefixed` state which names it binds and to what |
| `Loader.AddProperties` | load_neo4j.py:74-83 | the loop's SET items and parameter map are the items of the properties with non-empty safe keys (the corrected safe key of "Findings"), in order, and the base map updated with their `prop__` parameters |
| `Loader.EntityAssignments` | load_neo4j.py:61-90 | the SET items start with the four base items, hold the metadata item iff `metadata` is present, and end with the property items, with nothing else: the length is the four base items, the metadata item when present and the property items; there is at most one item per property beyond those and the metadata item |
| `Loader.EntityParams` | load_neo4j.py:67-87 | the keys are exactly the four base keys, the bound `prop__` names and `__metadata` when `metadata` is present |
| `Loader.CreateEntity` | load_neo4j.py:54-95 | a null `label` fails (TypeError); then a missing `id` fails (KeyError); otherwise the result is the label clause, the base items, the metadata item when `metadata` is present, the property items, and the full parameter map |
| `Loader.EntityParamsDefaults` | load_neo4j.py:67-87 | `name` defaults to the id and `description`/`original_text` to ""; `__metadata` holds the serialised metadata; every `prop__` parameter is kept, and none overwrites a base parameter |
| `Loader.PropParamsPrefixed` | load_neo4j.py:81-83 | every property parameter is named `prop__…` |
| `Loader.EntityParamsBindAll` | load_neo4j.py:61-90 | the `param` field of every SET item is a key of the parameter map |
| `Loader.EntityParamTokens` | load_neo4j.py:61-90 | the `param` field of every SET item is a non-empty word token, so the text after `$` is read as exactly that name |
| `Loader.PropParamsKeys` | load_neo4j.py:77-83 | a name is a property parameter iff some property has a non-empty safe key that names it |
| `Loader.PropParamsLastWins` | load_neo4j.py:83 | a parameter holds the value of the last property whose safe key names it |
| `Loader.PropAssignmentsConcat` | load_neo4j.py:77-82 | the SET items follow the iteration order of the properties |
| `Loader.PropItemSource` | load_neo4j.py:79-82 | each dynamic SET item is the item of one property's non-empty safe key |
| `Loader.EntityPropertyItemsQuoted` | load_neo4j.py:82 | every dynamic SET item renders with exactly the two backticks that quote its property |
| `Loader.PropertyItemQuoting` | load_neo4j.py:78-82 | `n.<safe key> = $prop__<safe key>` holds exactly two backticks |
| `Loader.EntityQuery` | load_neo4j.py:90-94 | the label clause sits unchanged after `CREATE (n:`; the text adds no backtick to those of the labels and the rendered SET items |
| `Loader.EntityQueryQuoting` | load_neo4j.py:56-94 | the entity query holds exactly two backticks per label and two per dynamic property, the ones that quote them |
| `Loader.PredicateArgument` | load_neo4j.py:118 | a missing `predicate` gives the default `RELATED_TO`, a null one `None`, a given one itself |
| `Loader.GivenProperties` | load_neo4j.py:119 | a given `properties` object is copied as it is; an absent one is the empty mapping |
| `Loader.RelationshipProps` | load_neo4j.py:119-121 | the keys are the given keys, plus `metadata` when metadata is present |
| `Loader.CreateRelationshipNative` | load_neo4j.py:114-133 | null `properties` fails (TypeError); then a missing `subject_id` fails, then a missing `object_id` (KeyError); otherwise it returns the sanitised type, both ids and the copied properties with the metadata |
| `Loader.RelationshipPropsContents` | load_neo4j.py:119-121 | `props` has exactly the given keys plus `metadata` when present; the metadata replaces a `metadata` property; every other value is unchanged |
| `Loader.RelationshipTypeOfTriplet` | load_neo4j.py:118 | a missing or null predicate gives `RELATED_TO`; any predicate gives a non-empty upper-case word token |
| `Loader.RelationshipQuery` | load_neo4j.py:124-129 | the two `MATCH` lines and `CREATE (a)-[r:` are followed by the type between backticks; the query ends with ` $props]->(b)` and `RETURN r`; it adds exactly two backticks to those of the relationship type |
| `Loader.RelationshipQueryQuoting` | load_neo4j.py:124-129 | the type sits right after `[r:` between a backtick on each side, and those two are the only backticks of the query, so the type cannot close the quoting |

## Findings

| source | as written | input that shows it | evidently intended | confidence | as-written member | corrected member |
|---|---|---|---|---|---|---|
| load_neo4j.py:78-82 | `safe_key` replaces only `" "` and `-`, so other whitespace stays in the key and in `$prop__<safe key>`, where Cypher ends the parameter name | the property key "a\tb" renders ``n.`a\tb` = $prop__a\tb``: Cypher reads the unbound `$prop__a` and then `b`; a key "x\nDETACH\nDELETE\nn" beside a key "x" appends words to the SET clause | every whitespace character of the key becomes `_`, so the parameter name is one word token | high, not executed | `Loader.SafeKeyAsWritten`, `Loader.TabKeyBreaksParameter` | `Loader.SafeKey`, `Loader.ParamTokenIsWord`, `Loader.EntityParamTokens` |

## Left out

- The driver, sessions, transactions and `tx.run`, `close` and `__init__`
  (load_neo4j.py:37-52) are not modelled, because they are I/O. The
  operations return the query and parameters instead.
- `has_apoc` (load_neo4j.py:135-144) is not modelled. It is a probe of the
  database.
- `load_data_from_json` (load_neo4j.py:146-182) is not modelled. It reads the
  file and deletes the old graph. It then calls `create_entity` once per
  element of `entities` and one relationship creator once per element of
  `triplets`, in order. Each call sits in its own `try`, so an item that
  raises is logged and skipped. An item whose modelled result is a `Failure`
  raises; an item modelled as a success can still fail inside `tx.run`.
- Errors that Neo4j raises inside `tx.run` are not modelled: an empty label
  ``` `` ``` (see `PunctuationLabelBecomesEmptyLabel`), a property value that is
  a JSON object or a list of mixed types, and a lost connection.
- `create_relationship_apoc` (load_neo4j.py:97-112) is not modelled. It
  splices nothing into the query text, because the predicate is a parameter.
- `json.dumps` of `metadata` is not modelled. The metadata arrives as its
  already-serialised text.
- Python's Unicode `\w`, whitespace and `str.upper` are abstracted by
  `CharClasses`. The model uses one whitespace predicate for regex `\s` and
  for `str.strip`. `str.upper` is per character, so multi-character upper
  cases (such as `ß` → `SS`, or `ǰ` → `J` and U+030C) are not modelled.
  `RelTypeSafeIsSafeToken` and `RelTypeSafeIdempotent` depend on this: with
  Python's `str.upper`, the type of `"ǰ"` holds the non-word character
  U+030C and is not its own relationship type. It still has no backtick,
  whitespace or `-`.
- `str(s)` of a non-string is not modelled. Labels, property keys and the
  predicate are strings in the model.
- A `label` member that is not a list is not modelled, beyond `null`. Python
  iterates a string character by character and an object over its keys; a
  number or a boolean raises TypeError.
- `properties` that is present but not an object is modelled like an absent
  one, because the `isinstance` check skips both. For triplets, only a null
  `properties` is modelled as failing (`dict(None)`). A string, number or
  list `properties` is not modelled: `dict()` raises TypeError or
  ValueError, or succeeds for a list of pairs.
- The property loop uses the corrected safe key (see "Findings"). For keys
  whose only whitespace is `" "` it is the key line 78 computes
  (`SafeKeyAgrees`); for the others the model does not reproduce the broken
  parameter name, which `TabKeyBreaksParameter` exhibits instead.
- A JSON object's keys are modelled as a sequence of (key, value) pairs in
  iteration order. Duplicates are allowed, which is more general than a
  dictionary.
- A null `id`, `subject_id` or `object_id` is a JSON value, not a missing key.
  Only a missing key fails.
