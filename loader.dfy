/** The query and parameter assembly of `Neo4jLoader` (load_neo4j.py:36-133).

    `create_entity` and `create_relationship_native` build a Cypher text and a
    parameter dictionary and hand both to `tx.run`.  Here they return that pair
    instead of running it: the query pieces as data (`EntityWrite`,
    `RelationshipWrite`), with `EntityQuery` and `RelationshipQuery` giving the
    exact Cypher text.  The exceptions the Python code raises on malformed input
    (and that `load_data_from_json` catches and logs per item) are `Failure`s. */
module Loader {
  import opened Wrappers
  import opened CharClasses
  import opened Sanitizer
  import opened RelType
  import opened Text

  /** A JSON object member: absent, present with `null`, or present with a value. */
  datatype Field<T> = Missing | Null | Given(value: T)

  /** A query parameter: a JSON value taken over from the input, or a string the
      loader makes itself (the "" defaults and the serialised metadata). */
  datatype Param<V> = Json(json: V) | Str(s: string)

  /** The exceptions raised inside the two operations. */
  datatype LoadError =
    | LabelsNotIterable        // `label` is null: iterating it raises TypeError
    | MissingId                // `entity["id"]` raises KeyError
    | PropertiesNotAMapping    // `dict(None)` raises TypeError
    | MissingSubjectId         // `triplet["subject_id"]` raises KeyError
    | MissingObjectId          // `triplet["object_id"]` raises KeyError

  /** One `n.<property> = $<param>` item of the SET clause. */
  datatype Assignment = Assignment(property: string, quoted: bool, param: string)

  /** A name between backticks, as Cypher escapes an identifier. */
  function Quote(x: string): (r: string)
    ensures |r| == |x| + 2 && r[0] == '`' && r[|r| - 1] == '`' && r[1..|r| - 1] == x
  {
    "`" + x + "`"
  }

  /** The text of one SET item: `n.` and the property, then ` = $` and the
      parameter name, which ends the item. */
  function Render(a: Assignment): string {
    "n." + (if a.quoted then Quote(a.property) else a.property) + " = $" + a.param
  }

  /** A rendered SET item starts with `n.` and ends with `$` and the parameter
      name, so the parameter is the last thing in the item. */
  lemma RenderShape(a: Assignment)
    ensures var r := Render(a);
      && "n." <= r
      && |r| >= |a.param| + 4 && r[|r| - |a.param|..] == a.param && r[|r| - |a.param| - 1] == '$'
  {
    var p := if a.quoted then Quote(a.property) else a.property;
    var head := "n." + p + " = ";
    assert Render(a) == head + ("$" + a.param);
    assert head[..2] == "n.";
  }

  // ---------------------------------------------------------------------------
  // Labels (load_neo4j.py:56-59)

  /** Python truthiness of a label: `None` and "" are false. */
  predicate Truthy(l: Option<string>) {
    l.Some? && l.value != []
  }

  /** `entity.get("label", ["Entity"])`; a `null` label cannot be iterated. */
  function LabelList(labels: Field<seq<Option<string>>>): (r: seq<Option<string>>)
    requires !labels.Null?
    ensures labels.Missing? ==> r == [Some("Entity")]
    ensures labels.Given? ==> r == labels.value
  {
    match labels
    case Missing => [Some("Entity")]
    case Given(ls) => ls
  }

  /** The labels the comprehension keeps, sanitised, in input order. */
  function SanitizedLabels(cc: CharClasses, ls: seq<Option<string>>): (r: seq<string>)
    ensures |r| <= |ls|
    ensures forall i, j :: 0 <= i < |r| && 0 <= j < |r[i]| ==> IsSafe(cc, r[i][j]) && r[i][j] != '`'
  {
    if ls == [] then []
    else (if Truthy(ls[0]) then [SanitizeIdentifier(cc, ls[0])] else []) + SanitizedLabels(cc, ls[1..])
  }

  /** The comprehension distributes over concatenation: the labels kept from
      `a + b` are those kept from `a` followed by those kept from `b`. */
  lemma {:induction false} SanitizedLabelsConcat(cc: CharClasses, a: seq<Option<string>>, b: seq<Option<string>>)
    ensures SanitizedLabels(cc, a + b) == SanitizedLabels(cc, a) + SanitizedLabels(cc, b)
  {
    if a == [] {
      assert a + b == b;
    } else {
      var h := if Truthy(a[0]) then [SanitizeIdentifier(cc, a[0])] else [];
      var ab := a + b;
      assert ab[0] == a[0] && ab[1..] == a[1..] + b;
      assert SanitizedLabels(cc, ab) == h + SanitizedLabels(cc, a[1..] + b);
      assert SanitizedLabels(cc, a) == h + SanitizedLabels(cc, a[1..]);
      SanitizedLabelsConcat(cc, a[1..], b);
      AppendAssoc(h, SanitizedLabels(cc, a[1..]), SanitizedLabels(cc, b));
    }
  }

  /** One label: kept, sanitised, exactly when it is truthy.  With
      `SanitizedLabelsConcat` this fixes the comprehension as a filter-and-map
      in input order. */
  lemma SanitizedLabelsSingle(cc: CharClasses, l: Option<string>)
    ensures SanitizedLabels(cc, [l]) == (if Truthy(l) then [SanitizeIdentifier(cc, l)] else [])
  {
    assert [l][1..] == [];
  }

  /** `labels_cypher`: the backtick-quoted labels joined by ':', or `Entity` when none is left. */
  function LabelsClause(cc: CharClasses, ls: seq<Option<string>>): (r: string)
    ensures |r| >= 2 && r[0] == '`'
  {
    var safe := SanitizedLabels(cc, ls);
    if safe == [] then Quote("Entity")
    else
      var qs := seq(|safe|, i requires 0 <= i < |safe| => Quote(safe[i]));
      assert Quote(safe[0]) <= Join(qs, ":");
      Join(qs, ":")
  }

  /** Reading a quoted label back: the text between two backticks, which must hold none. */
  function Unquote(p: string): Option<string> {
    if |p| >= 2 && p[0] == '`' && p[|p| - 1] == '`' && '`' !in p[1..|p| - 1]
    then Some(p[1..|p| - 1]) else None
  }

  function UnquoteAll(ps: seq<string>): Option<seq<string>> {
    if ps == [] then Some([])
    else match (Unquote(ps[0]), UnquoteAll(ps[1..]))
      case (Some(x), Some(xs)) => Some([x] + xs)
      case _ => None
  }

  /** How Cypher reads a label clause: labels separated by ':', each between backticks. */
  function ParseLabels(clause: string): Option<seq<string>> {
    UnquoteAll(Split(clause, ':'))
  }

  lemma {:induction false} UnquoteAllQuoted(xs: seq<string>)
    requires forall i :: 0 <= i < |xs| ==> '`' !in xs[i]
    ensures UnquoteAll(seq(|xs|, i requires 0 <= i < |xs| => Quote(xs[i]))) == Some(xs)
  {
    var qs := seq(|xs|, i requires 0 <= i < |xs| => Quote(xs[i]));
    if xs != [] {
      var q0 := Quote(xs[0]);
      assert q0[1..|q0| - 1] == xs[0];
      assert qs[1..] == seq(|xs| - 1, i requires 0 <= i < |xs| - 1 => Quote(xs[1..][i]));
      UnquoteAllQuoted(xs[1..]);
      assert [xs[0]] + xs[1..] == xs;
    }
  }

  /** The label clause cannot be broken out of: read back as Cypher reads it,
      it is exactly the sanitised labels in input order (or `Entity`). */
  lemma LabelsClauseRoundTrip(cc: CharClasses, ls: seq<Option<string>>)
    requires WellFormed(cc)
    ensures var safe := SanitizedLabels(cc, ls);
      ParseLabels(LabelsClause(cc, ls)) == Some(if safe == [] then ["Entity"] else safe)
  {
    var safe := SanitizedLabels(cc, ls);
    if safe == [] {
      assert Split(Quote("Entity"), ':') == [Quote("Entity")] by {
        SplitSepFreePrefix(Quote("Entity"), [], ':');
        assert Quote("Entity") + [] == Quote("Entity");
      }
      UnquoteAllQuoted(["Entity"]);
      assert seq(1, i requires 0 <= i < 1 => Quote(["Entity"][i])) == [Quote("Entity")];
    } else {
      var qs := seq(|safe|, i requires 0 <= i < |safe| => Quote(safe[i]));
      forall i | 0 <= i < |safe| ensures '`' !in safe[i] && ':' !in safe[i] {
        assert forall j :: 0 <= j < |safe[i]| ==> safe[i][j] != ':' by {
          forall j | 0 <= j < |safe[i]| ensures safe[i][j] != ':' {
            assert IsSafe(cc, safe[i][j]);
          }
        }
      }
      forall i | 0 <= i < |qs| ensures ':' !in qs[i] {
        assert qs[i] == ['`'] + safe[i] + ['`'];
      }
      SplitJoin(qs, ':');
      UnquoteAllQuoted(safe);
    }
  }

  /** The label clause holds exactly two backticks per label, those that quote
      it, so no label can end its quoting early. */
  lemma LabelsClauseQuoting(cc: CharClasses, ls: seq<Option<string>>)
    ensures var safe := SanitizedLabels(cc, ls);
      Count(LabelsClause(cc, ls), '`') == 2 * (if safe == [] then 1 else |safe|)
  {
    var safe := SanitizedLabels(cc, ls);
    if safe == [] {
      assert '`' !in "Entity";
      QuoteCount("Entity");
    } else {
      var qs := seq(|safe|, i requires 0 <= i < |safe| => Quote(safe[i]));
      forall i | 0 <= i < |qs| ensures Count(qs[i], '`') == 2 {
        assert '`' !in safe[i] by {
          assert forall j :: 0 <= j < |safe[i]| ==> safe[i][j] != '`';
        }
        QuoteCount(safe[i]);
      }
      CountJoin(qs, ":", '`');
      CountAllTwice(qs, '`');
    }
  }

  /** A label that is truthy but sanitises to nothing still yields an (empty)
      quoted label: the comprehension filters on the raw label. */
  lemma PunctuationLabelBecomesEmptyLabel(cc: CharClasses)
    requires WellFormed(cc)
    ensures LabelsClause(cc, [Some(":")]) == "``"
  {
    assert KeepSafe(cc, RemoveBackticks(":")) == [];
    assert SanitizedLabels(cc, [Some(":")]) == [[]];
  }

  // ---------------------------------------------------------------------------
  // Entities (load_neo4j.py:54-95)

  /** An element of the input's "entities" list.  `properties` is `None` when
      the member is absent or is not a JSON object; `metadata` is the text
      `json.dumps` makes of the "metadata" member, when there is one. */
  datatype Entity<V> = Entity(
    id: Option<V>,
    labels: Field<seq<Option<string>>>,
    name: Option<V>,
    description: Option<V>,
    originalText: Option<V>,
    properties: Option<seq<(string, V)>>,
    metadata: Option<string>)

  /** What `create_entity` passes to `tx.run`. */
  datatype EntityWrite<V> = EntityWrite(labels: string, assignments: seq<Assignment>, params: map<string, Param<V>>)

  const BaseAssignments: seq<Assignment> := [
    Assignment("id", false, "id"),
    Assignment("name", false, "name"),
    Assignment("description", false, "description"),
    Assignment("original_text", false, "original_text")]

  const MetadataAssignment: Assignment := Assignment("metadata", false, "__metadata")

  /** The fixed SET items render as the literals of `base_set` and of the
      metadata item. */
  lemma FixedItemsText()
    ensures Rendered(BaseAssignments)
      == ["n.id = $id", "n.name = $name", "n.description = $description", "n.original_text = $original_text"]
    ensures Render(MetadataAssignment) == "n.metadata = $__metadata"
  {
    IdItemText();
    NameItemText();
    DescriptionItemText();
    OriginalTextItemText();
    MetadataItemText();
  }

  lemma IdItemText()
    ensures Render(BaseAssignments[0]) == "n.id = $id"
  {
  }

  lemma NameItemText()
    ensures Render(BaseAssignments[1]) == "n.name = $name"
  {
  }

  lemma DescriptionItemText()
    ensures Render(BaseAssignments[2]) == "n.description = $description"
  {
  }

  lemma OriginalTextItemText()
    ensures Render(BaseAssignments[3]) == "n.original_text = $original_text"
  {
  }

  lemma MetadataItemText()
    ensures Render(MetadataAssignment) == "n.metadata = $__metadata"
  {
  }

  /** The parameter dictionary before the dynamic properties: `name` defaults to
      the id, `description` and `original_text` to "". */
  function BaseParams<V>(e: Entity<V>): (r: map<string, Param<V>>)
    requires e.id.Some?
    ensures r.Keys == {"id", "name", "description", "original_text"}
  {
    map[
      "id" := Json(e.id.value),
      "name" := Json(e.name.GetOr(e.id.value)),
      "description" := if e.description.Some? then Json(e.description.value) else Str(""),
      "original_text" := if e.originalText.Some? then Json(e.originalText.value) else Str("")]
  }

  /** `entity.get("properties", {})` as the sequence of its items, in
      iteration order: no properties means no items. */
  function PropertyList<V>(e: Entity<V>): (r: seq<(string, V)>)
    ensures e.properties.None? ==> r == []
    ensures e.properties.Some? ==> r == e.properties.value
  {
    e.properties.GetOr([])
  }

  /** `s.replace(a, b)` for single characters: every `a` becomes `b`, every
      other character stays where it is. */
  function ReplaceChar(s: string, a: char, b: char): (r: string)
    ensures |r| == |s|
    ensures forall i :: 0 <= i < |s| ==> (s[i] == a ==> r[i] == b) && (s[i] != a ==> r[i] == s[i])
    ensures a != b ==> a !in r
  {
    seq(|s|, i requires 0 <= i < |s| => if s[i] == a then b else s[i])
  }

  /** `safe_key` as load_neo4j.py:78 computes it: the sanitised key with ' '
      and '-' replaced by '_'.  Other whitespace (a tab, a newline) is kept. */
  function SafeKeyAsWritten(cc: CharClasses, key: string): (r: string)
    ensures |r| == |SanitizeIdentifier(cc, Some(key))|
    ensures forall i :: 0 <= i < |r| ==> r[i] != ' ' && r[i] != '-'
    ensures var t := SanitizeIdentifier(cc, Some(key));
      forall i :: 0 <= i < |r| ==> r[i] == (if t[i] == ' ' || t[i] == '-' then '_' else t[i])
  {
    ReplaceChar(ReplaceChar(SanitizeIdentifier(cc, Some(key)), ' ', '_'), '-', '_')
  }

  /** A character the safe key replaces by '_': ' ', '-' and, beyond what line
      78 replaces, every other whitespace character. */
  predicate KeySep(cc: CharClasses, c: char) {
    c == ' ' || c == '-' || cc.isSpace(c)
  }

  /** The safe key this model uses: the sanitised key with every ' ', '-' and
      other whitespace character replaced by '_' (see "Findings" in README). */
  function SafeKey(cc: CharClasses, key: string): string {
    var t := SanitizeIdentifier(cc, Some(key));
    seq(|t|, i requires 0 <= i < |t| => if KeySep(cc, t[i]) then '_' else t[i])
  }

  /** A safe key has no ' ', '-', other whitespace or backtick, consists of '_'
      and characters the sanitiser keeps, and is empty exactly when the
      sanitised key is. */
  lemma SafeKeyChars(cc: CharClasses, key: string)
    ensures var k := SafeKey(cc, key);
      && (forall i :: 0 <= i < |k| ==> k[i] != ' ' && k[i] != '-' && k[i] != '`')
      && (forall i :: 0 <= i < |k| ==> k[i] == '_' || (IsSafe(cc, k[i]) && !KeySep(cc, k[i])))
      && (k == [] <==> SanitizeIdentifier(cc, Some(key)) == [])
      && var t := SanitizeIdentifier(cc, Some(key));
         && |k| == |t|
         && (forall i :: 0 <= i < |t| && KeySep(cc, t[i]) ==> k[i] == '_')
         && (forall i :: 0 <= i < |t| && !KeySep(cc, t[i]) ==> k[i] == t[i])
  {
    var t := SanitizeIdentifier(cc, Some(key));
    var k := SafeKey(cc, key);
    assert |k| == |t|;
    forall i | 0 <= i < |k|
      ensures k[i] != ' ' && k[i] != '-' && k[i] != '`'
      ensures k[i] == '_' || (IsSafe(cc, k[i]) && !KeySep(cc, k[i]))
    {
      assert k[i] == (if KeySep(cc, t[i]) then '_' else t[i]);
    }
  }

  /** With Python's character classes, a safe key is made of word characters
      only. */
  lemma SafeKeyIsWord(cc: CharClasses, key: string)
    requires WellFormed(cc)
    ensures forall i :: 0 <= i < |SafeKey(cc, key)| ==> cc.isWord(SafeKey(cc, key)[i])
  {
    SafeKeyChars(cc, key);
  }

  /** A string Cypher reads as one parameter name after `$`: non-empty, word
      characters only. */
  predicate IsWordToken(cc: CharClasses, s: string) {
    s != [] && forall i :: 0 <= i < |s| ==> cc.isWord(s[i])
  }

  /** The parameter name `prop__<safe key>` is a single word token, so the text
      `$prop__<safe key>` names exactly the parameter that is bound. */
  lemma ParamTokenIsWord(cc: CharClasses, key: string)
    requires WellFormed(cc)
    ensures IsWordToken(cc, ParamName(SafeKey(cc, key)))
  {
    SafeKeyIsWord(cc, key);
    PropPrefixIsWord(cc);
    WordsConcat(cc, "prop__", SafeKey(cc, key));
  }

  lemma PropPrefixIsWord(cc: CharClasses)
    requires WellFormed(cc)
    ensures forall i :: 0 <= i < |"prop__"| ==> cc.isWord("prop__"[i])
  {
    assert IsAsciiLetterOrDigit('p') && IsAsciiLetterOrDigit('r') && IsAsciiLetterOrDigit('o');
  }

  lemma WordsConcat(cc: CharClasses, a: string, b: string)
    requires forall i :: 0 <= i < |a| ==> cc.isWord(a[i])
    requires forall i :: 0 <= i < |b| ==> cc.isWord(b[i])
    ensures forall i :: 0 <= i < |a + b| ==> cc.isWord((a + b)[i])
  {
    forall i | 0 <= i < |a + b| ensures cc.isWord((a + b)[i]) {
      if i >= |a| {
        assert (a + b)[i] == b[i - |a|];
      }
    }
  }

  /** Where the key holds no whitespace other than ' ', the safe key is the one
      line 78 computes. */
  lemma SafeKeyAgrees(cc: CharClasses, key: string)
    requires forall i :: 0 <= i < |key| && cc.isSpace(key[i]) ==> key[i] == ' '
    ensures SafeKey(cc, key) == SafeKeyAsWritten(cc, key)
  {
    var t := SanitizeIdentifier(cc, Some(key));
    var k, w := SafeKey(cc, key), SafeKeyAsWritten(cc, key);
    var t1 := ReplaceChar(t, ' ', '_');
    forall i | 0 <= i < |t| ensures k[i] == w[i] {
      assert t[i] in key;
      assert w[i] == (if t1[i] == '-' then '_' else t1[i]);
    }
  }

  /** As line 78 is written, a tab survives in the safe key and so in the
      parameter name after `$`, where Cypher ends the name: the item refers to
      `$prop__a`, which is not bound, followed by a stray `b`.  The safe key of
      this model turns the tab into '_'. */
  lemma TabKeyBreaksParameter(cc: CharClasses)
    requires WellFormed(cc)
    ensures SafeKeyAsWritten(cc, "a\tb") == "a\tb"
    ensures Render(PropertyAssignment(SafeKeyAsWritten(cc, "a\tb"))) == "n.`a\tb` = $prop__a\tb"
    ensures cc.isSpace(ParamName(SafeKeyAsWritten(cc, "a\tb"))[7])
    ensures SafeKey(cc, "a\tb") == "a_b"
  {
    TabKeySanitized(cc);
    TabKeyAsWritten(cc);
    TabKeyRender();
    TabKeyCorrected(cc);
  }

  lemma TabKeyAsWritten(cc: CharClasses)
    requires SanitizeIdentifier(cc, Some("a\tb")) == "a\tb"
    ensures SafeKeyAsWritten(cc, "a\tb") == "a\tb"
  {
    assert ReplaceChar("a\tb", ' ', '_') == "a\tb";
    assert ReplaceChar("a\tb", '-', '_') == "a\tb";
  }

  lemma TabKeyRender()
    ensures Render(PropertyAssignment("a\tb")) == "n.`a\tb` = $prop__a\tb"
    ensures ParamName("a\tb")[7] == '\t'
  {
  }

  lemma TabKeyCorrected(cc: CharClasses)
    requires WellFormed(cc)
    requires SanitizeIdentifier(cc, Some("a\tb")) == "a\tb"
    ensures SafeKey(cc, "a\tb") == "a_b"
  {
    assert !KeySep(cc, 'a') && KeySep(cc, '\t') && !KeySep(cc, 'b');
  }

  lemma TabKeySanitized(cc: CharClasses)
    requires WellFormed(cc)
    ensures SanitizeIdentifier(cc, Some("a\tb")) == "a\tb"
  {
    var s := "a\tb";
    assert RemoveBackticks(s) == s by {
      assert '`' !in s;
    }
    assert KeepSafe(cc, s) == s by {
      assert IsAsciiLetterOrDigit('a') && IsAsciiLetterOrDigit('b');
      assert IsSafe(cc, s[0]) && IsSafe(cc, s[1]) && IsSafe(cc, s[2]);
    }
    assert !cc.isSpace(s[0]) && !cc.isSpace(s[2]);
  }

  /** The parameter of a property: the safe key behind a `prop__` prefix. */
  function ParamName(k: string): (r: string)
    ensures |r| == |k| + 6 && r[..6] == "prop__" && r[6..] == k
  {
    "prop__" + k
  }

  /** The SET item of a property with safe key `k`: the f-string of line 82. */
  function PropertyAssignment(k: string): (a: Assignment)
    ensures Render(a) == "n.`" + k + "` = $prop__" + k
  {
    var a := Assignment(k, true, ParamName(k));
    PropertyItemText(k);
    a
  }

  lemma PropertyItemText(k: string)
    ensures Render(Assignment(k, true, ParamName(k))) == "n.`" + k + "` = $prop__" + k
  {
    var q := "`";
    var head := "n.`" + k;
    AppendAssoc("n.", q, k);
    assert "n." + q == "n.`";
    AppendAssoc("n.", q + k, q);
    var n := "n." + Quote(k);
    assert n == head + q;
    AppendAssoc(n + " = $", "prop__", k);
    AppendAssoc(n, " = $", "prop__");
    assert " = $" + "prop__" == " = $prop__";
    AppendAssoc(head, q, " = $prop__");
    assert q + " = $prop__" == "` = $prop__";
  }

  /** The properties in iteration order, each key replaced by its safe key. */
  function KeyedProperties<V>(cc: CharClasses, ps: seq<(string, V)>): (kv: seq<(string, V)>)
    ensures |kv| == |ps|
  {
    if ps == [] then [] else KeyedProperties(cc, ps[..|ps| - 1]) + [(SafeKey(cc, ps[|ps| - 1].0), ps[|ps| - 1].1)]
  }

  /** The keyed property at a position is the safe key and value of the
      property there. */
  lemma {:induction false} KeyedAt<V>(cc: CharClasses, ps: seq<(string, V)>, i: nat)
    requires i < |ps|
    ensures KeyedProperties(cc, ps)[i] == (SafeKey(cc, ps[i].0), ps[i].1)
  {
    if i < |ps| - 1 {
      var init := ps[..|ps| - 1];
      KeyedAt(cc, init, i);
      assert init[i] == ps[i];
    }
  }

  /** Keying one more property appends its safe key and value. */
  lemma KeyedStep<V>(cc: CharClasses, ps: seq<(string, V)>, i: nat)
    requires i < |ps|
    ensures KeyedProperties(cc, ps[..i + 1]) == KeyedProperties(cc, ps[..i]) + [(SafeKey(cc, ps[i].0), ps[i].1)]
  {
    assert ps[..i + 1][..i] == ps[..i];
  }

  /** The SET item of one keyed property: none when its safe key is empty. */
  function PropItem<V>(p: (string, V)): (r: seq<Assignment>)
    ensures |r| <= 1 && (r == [] <==> p.0 == [])
    ensures r != [] ==> r[0] == PropertyAssignment(p.0)
  {
    if p.0 == [] then [] else [PropertyAssignment(p.0)]
  }

  /** `prop_assigns` after the loop has seen the keyed properties `kv`. */
  function PropAssignments<V>(kv: seq<(string, V)>): (r: seq<Assignment>)
    ensures |r| <= |kv|
    ensures forall j :: 0 <= j < |r| ==>
      r[j].quoted && r[j].property != [] && r[j].param == ParamName(r[j].property)
  {
    if kv == [] then [] else PropAssignments(kv[..|kv| - 1]) + PropItem(kv[|kv| - 1])
  }

  /** The `prop__` entries of `params` after the loop has seen the keyed
      properties `kv`. */
  function PropParams<V>(kv: seq<(string, V)>): (r: map<string, Param<V>>)
  {
    if kv == [] then map[]
    else
      var (k, v) := kv[|kv| - 1];
      var m := PropParams(kv[..|kv| - 1]);
      if k == [] then m else m[ParamName(k) := Json(v)]
  }

  /** The SET items of `create_entity`: the four base items, the metadata item
      (appended to `base_set`), then the property items. */
  function EntityAssignments<V>(cc: CharClasses, e: Entity<V>): (r: seq<Assignment>)
    ensures BaseAssignments <= r
    ensures |r| <= |BaseAssignments| + 1 + |PropertyList(e)|
    ensures e.metadata.Some? <==> MetadataAssignment in r
    ensures var pa := PropAssignments(KeyedProperties(cc, PropertyList(e)));
      |pa| <= |r| && r[|r| - |pa|..] == pa
    ensures |r| == |BaseAssignments| + (if e.metadata.Some? then 1 else 0)
      + |PropAssignments(KeyedProperties(cc, PropertyList(e)))|
  {
    EntityAssignmentsParts(PropAssignments(KeyedProperties(cc, PropertyList(e))), e.metadata.Some?);
    BaseAssignments + (if e.metadata.Some? then [MetadataAssignment] else [])
    + PropAssignments(KeyedProperties(cc, PropertyList(e)))
  }

  /** The fixed items, then the property items: the metadata item is among
      them exactly when it was appended, and the property items end the list. */
  lemma EntityAssignmentsParts(pa: seq<Assignment>, meta: bool)
    requires forall j :: 0 <= j < |pa| ==> pa[j].quoted
    ensures var r := BaseAssignments + (if meta then [MetadataAssignment] else []) + pa;
      && (meta <==> MetadataAssignment in r)
      && |pa| <= |r| && r[|r| - |pa|..] == pa
  {
    var fixed := BaseAssignments + (if meta then [MetadataAssignment] else []);
    var r := fixed + pa;
    assert r[|fixed|..] == pa;
    assert MetadataAssignment !in pa by {
      forall j | 0 <= j < |pa| ensures pa[j] != MetadataAssignment {
        assert pa[j].quoted;
      }
    }
    assert MetadataAssignment !in BaseAssignments;
    if meta {
      assert r[4] == MetadataAssignment;
    } else {
      assert r == BaseAssignments + pa;
    }
  }

  /** The parameter dictionary `create_entity` passes to `tx.run`. */
  function EntityParams<V>(cc: CharClasses, e: Entity<V>): (r: map<string, Param<V>>)
    requires e.id.Some?
    ensures BaseParams(e).Keys <= r.Keys
    ensures e.metadata.Some? <==> "__metadata" in r
    ensures r.Keys == BaseParams(e).Keys + PropParams(KeyedProperties(cc, PropertyList(e))).Keys
      + (if e.metadata.Some? then {"__metadata"} else {})
  {
    var props := PropParams(KeyedProperties(cc, PropertyList(e)));
    PropParamsPrefixed(KeyedProperties(cc, PropertyList(e)));
    NotPropParamName(props, "__metadata");
    var m := BaseParams(e) + props;
    if e.metadata.Some? then m["__metadata" := Str(e.metadata.value)] else m
  }

  /** `create_entity(tx, entity)` up to the `tx.run` call. */
  method CreateEntity<V>(cc: CharClasses, e: Entity<V>) returns (r: Result<EntityWrite<V>, LoadError>)
    ensures e.labels.Null? ==> r == Failure(LabelsNotIterable)
    ensures !e.labels.Null? && e.id.None? ==> r == Failure(MissingId)
    ensures !e.labels.Null? && e.id.Some? ==>
      r == Success(EntityWrite(LabelsClause(cc, LabelList(e.labels)), EntityAssignments(cc, e), EntityParams(cc, e)))
  {
    if e.labels.Null? {
      return Failure(LabelsNotIterable);
    }
    var labelsCypher := LabelsClause(cc, LabelList(e.labels));
    if e.id.None? {
      return Failure(MissingId);
    }
    var baseSet := BaseAssignments;
    var propAssigns, params := AddProperties(cc, PropertyList(e), BaseParams(e));
    if e.metadata.Some? {
      params := params["__metadata" := Str(e.metadata.value)];
      baseSet := baseSet + [MetadataAssignment];
    } else {
      assert baseSet + [] == baseSet;
    }
    assert params == EntityParams(cc, e);
    assert baseSet + propAssigns == EntityAssignments(cc, e);
    r := Success(EntityWrite(labelsCypher, baseSet + propAssigns, params));
  }

  /** The loop over `properties.items()` of `create_entity` (load_neo4j.py:76-83):
      each property with a non-empty safe key adds a quoted SET item and binds
      its `prop__` parameter in `params`. */
  method AddProperties<V>(cc: CharClasses, ps: seq<(string, V)>, base: map<string, Param<V>>)
    returns (propAssigns: seq<Assignment>, params: map<string, Param<V>>)
    ensures propAssigns == PropAssignments(KeyedProperties(cc, ps))
    ensures params == base + PropParams(KeyedProperties(cc, ps))
  {
    ghost var done: seq<(string, V)> := [];
    params := base;
    propAssigns := [];
    var i := 0;
    while i < |ps|
      invariant 0 <= i <= |ps|
      invariant done == KeyedProperties(cc, ps[..i])
      invariant propAssigns == PropAssignments(done)
      invariant params == base + PropParams(done)
    {
      var key := ps[i].0;
      var safeKey := SafeKey(cc, key);
      LoopStep(cc, ps, i, done, base);
      if safeKey != [] {
        var paramName := ParamName(safeKey);
        propAssigns := propAssigns + [PropertyAssignment(safeKey)];
        params := params[paramName := Json(ps[i].1)];
      }
      done := done + [(safeKey, ps[i].1)];
      i := i + 1;
    }
    assert ps[..i] == ps;
  }

  /** One iteration of the property loop: the keyed prefix grows by the
      current property, which adds its SET item and parameter if its safe key
      is not empty. */
  lemma LoopStep<V>(cc: CharClasses, ps: seq<(string, V)>, i: nat, done: seq<(string, V)>, base: map<string, Param<V>>)
    requires i < |ps| && done == KeyedProperties(cc, ps[..i])
    ensures var x := (SafeKey(cc, ps[i].0), ps[i].1);
      && done + [x] == KeyedProperties(cc, ps[..i + 1])
      && PropAssignments(done + [x]) == PropAssignments(done) + (if x.0 == [] then [] else [PropertyAssignment(x.0)])
      && base + PropParams(done + [x])
         == (if x.0 == [] then base + PropParams(done) else (base + PropParams(done))[ParamName(x.0) := Json(x.1)])
  {
    var x := (SafeKey(cc, ps[i].0), ps[i].1);
    KeyedStep(cc, ps, i);
    if x.0 == [] {
      PropStepSkip(done, x);
    } else {
      PropStepBind(done, x, base);
    }
  }

  lemma UpdateUnion<K, U>(b: map<K, U>, p: map<K, U>, k: K, v: U)
    ensures (b + p)[k := v] == b + p[k := v]
  {
  }

  /** One iteration of the property loop, for a property whose safe key is empty... */
  lemma PropStepSkip<V>(done: seq<(string, V)>, p: (string, V))
    requires p.0 == []
    ensures PropAssignments(done + [p]) == PropAssignments(done)
    ensures PropParams(done + [p]) == PropParams(done)
  {
    assert (done + [p])[..|done|] == done;
  }

  /** ...and for one whose safe key is not. */
  lemma PropStepBind<V>(done: seq<(string, V)>, p: (string, V), base: map<string, Param<V>>)
    requires p.0 != []
    ensures PropAssignments(done + [p]) == PropAssignments(done) + [PropertyAssignment(p.0)]
    ensures base + PropParams(done + [p]) == (base + PropParams(done))[ParamName(p.0) := Json(p.1)]
  {
    assert (done + [p])[..|done|] == done;
    UpdateUnion(base, PropParams(done), ParamName(p.0), Json(p.1));
  }

  /** The defaults of `create_entity`'s parameters, and that neither the
      dynamic properties nor the metadata can overwrite a base parameter or
      each other. */
  lemma EntityParamsDefaults<V>(cc: CharClasses, e: Entity<V>)
    requires e.id.Some?
    ensures var m := EntityParams(cc, e);
      && m["id"] == Json(e.id.value)
      && m["name"] == Json(if e.name.Some? then e.name.value else e.id.value)
      && m["description"] == (if e.description.Some? then Json(e.description.value) else Str(""))
      && m["original_text"] == (if e.originalText.Some? then Json(e.originalText.value) else Str(""))
      && (e.metadata.Some? ==> m["__metadata"] == Str(e.metadata.value))
      && var props := PropParams(KeyedProperties(cc, PropertyList(e)));
         forall n :: n in props ==> n in m && m[n] == props[n]
  {
    var kv := KeyedProperties(cc, PropertyList(e));
    PropParamsPrefixed(kv);
    ParamsDefaults(e, PropParams(kv));
  }

  /** Every property parameter is named `prop__<safe key>`. */
  lemma {:induction false} PropParamsPrefixed<V>(kv: seq<(string, V)>)
    ensures forall n :: n in PropParams(kv) ==> "prop__" <= n
  {
    if kv != [] {
      PropParamsPrefixed(kv[..|kv| - 1]);
    }
  }

  /** `EntityParamsDefaults` for any map of `prop__` parameters. */
  lemma ParamsDefaults<V>(e: Entity<V>, props: map<string, Param<V>>)
    requires e.id.Some?
    requires forall p :: p in props ==> "prop__" <= p
    ensures var u := BaseParams(e) + props;
      var m := if e.metadata.Some? then u["__metadata" := Str(e.metadata.value)] else u;
      && m["id"] == Json(e.id.value)
      && m["name"] == Json(if e.name.Some? then e.name.value else e.id.value)
      && m["description"] == (if e.description.Some? then Json(e.description.value) else Str(""))
      && m["original_text"] == (if e.originalText.Some? then Json(e.originalText.value) else Str(""))
      && (e.metadata.Some? ==> m["__metadata"] == Str(e.metadata.value))
      && forall n :: n in props ==> n in m && m[n] == props[n]
  {
    NotPropParamName(props, "id");
    NotPropParamName(props, "name");
    NotPropParamName(props, "description");
    NotPropParamName(props, "original_text");
    NotPropParamName(props, "__metadata");
  }

  /** A name that does not start with "prop__" is not a property parameter. */
  lemma NotPropParamName<V>(props: map<string, Param<V>>, n: string)
    requires forall p :: p in props ==> "prop__" <= p
    requires |n| < 6 || n[0] != 'p'
    ensures n !in props
  {
  }

  /** Every parameter the SET clause of `create_entity` refers to is bound. */
  lemma EntityParamsBindAll<V>(cc: CharClasses, e: Entity<V>)
    requires e.id.Some?
    ensures forall a :: a in EntityAssignments(cc, e) ==> a.param in EntityParams(cc, e)
  {
    var kv := KeyedProperties(cc, PropertyList(e));
    PropAssignmentsBound(kv);
    BindAllFor(e, PropAssignments(kv), PropParams(kv));
  }

  /** `EntityParamsBindAll` for any property items whose parameters are bound. */
  lemma BindAllFor<V>(e: Entity<V>, items: seq<Assignment>, props: map<string, Param<V>>)
    requires e.id.Some?
    requires forall a :: a in items ==> a.param in props
    ensures var u := BaseParams(e) + props;
      var m := if e.metadata.Some? then u["__metadata" := Str(e.metadata.value)] else u;
      forall a :: a in BaseAssignments + (if e.metadata.Some? then [MetadataAssignment] else []) + items ==> a.param in m
  {
  }

  /** Every `$prop__<key>` in the SET clause has its parameter. */
  lemma {:induction false} PropAssignmentsBound<V>(kv: seq<(string, V)>)
    ensures forall a :: a in PropAssignments(kv) ==> a.param in PropParams(kv)
  {
    if kv != [] {
      PropAssignmentsBound(kv[..|kv| - 1]);
    }
  }

  /** Keyed property `p` binds the parameter `n`: its safe key is non-empty and
      names `n`. */
  predicate Binds<V>(p: (string, V), n: string) {
    p.0 != [] && n == ParamName(p.0)
  }

  /** The property map after one more property. */
  lemma PropParamsLast<V>(kv: seq<(string, V)>, n: string)
    requires kv != []
    ensures n in PropParams(kv) <==> n in PropParams(kv[..|kv| - 1]) || Binds(kv[|kv| - 1], n)
    ensures Binds(kv[|kv| - 1], n) ==> PropParams(kv)[n] == Json(kv[|kv| - 1].1)
    ensures !Binds(kv[|kv| - 1], n) && n in PropParams(kv) ==>
      PropParams(kv)[n] == PropParams(kv[..|kv| - 1])[n]
  {
  }

  /** A parameter name is in the property parameters exactly when some property
      binds it. */
  lemma PropParamsKeys<V>(kv: seq<(string, V)>, n: string)
    ensures n in PropParams(kv) <==> exists i :: 0 <= i < |kv| && Binds(kv[i], n)
  {
    if n in PropParams(kv) {
      var i := PropParamsWitness(kv, n);
    }
    if exists i :: 0 <= i < |kv| && Binds(kv[i], n) {
      var i :| 0 <= i < |kv| && Binds(kv[i], n);
      PropParamsBound(kv, i, n);
    }
  }

  /** Every property parameter was bound by some property. */
  lemma {:induction false} PropParamsWitness<V>(kv: seq<(string, V)>, n: string) returns (i: nat)
    requires n in PropParams(kv)
    ensures i < |kv| && Binds(kv[i], n)
  {
    var init := kv[..|kv| - 1];
    PropParamsLast(kv, n);
    if Binds(kv[|kv| - 1], n) {
      i := |kv| - 1;
    } else {
      i := PropParamsWitness(init, n);
      assert init[i] == kv[i];
    }
  }

  /** Every property with a non-empty safe key binds its parameter. */
  lemma {:induction false} PropParamsBound<V>(kv: seq<(string, V)>, i: nat, n: string)
    requires i < |kv| && Binds(kv[i], n)
    ensures n in PropParams(kv)
  {
    var init := kv[..|kv| - 1];
    PropParamsLast(kv, n);
    if i < |kv| - 1 {
      assert init[i] == kv[i];
      PropParamsBound(init, i, n);
    }
  }

  /** Later properties win: a parameter holds the value of the last property
      that binds it. */
  lemma {:induction false} PropParamsLastWins<V>(kv: seq<(string, V)>, i: nat, n: string)
    requires i < |kv| && Binds(kv[i], n)
    requires forall j :: i < j < |kv| ==> !Binds(kv[j], n)
    ensures n in PropParams(kv) && PropParams(kv)[n] == Json(kv[i].1)
  {
    var init := kv[..|kv| - 1];
    PropParamsLast(kv, n);
    if i < |kv| - 1 {
      assert init[i] == kv[i];
      forall j | i < j < |init| ensures !Binds(init[j], n) {
        assert init[j] == kv[j];
      }
      PropParamsLastWins(init, i, n);
    }
  }

  /** The SET items follow the iteration order of the properties. */
  lemma {:induction false} PropAssignmentsConcat<V>(a: seq<(string, V)>, b: seq<(string, V)>)
    ensures PropAssignments(a + b) == PropAssignments(a) + PropAssignments(b)
    decreases |b|
  {
    if b == [] {
      assert a + b == a;
    } else {
      var init := b[..|b| - 1];
      var item := PropItem(b[|b| - 1]);
      assert (a + b)[..|a + b| - 1] == a + init;
      assert (a + b)[|a + b| - 1] == b[|b| - 1];
      assert PropAssignments(a + b) == PropAssignments(a + init) + item;
      PropAssignmentsConcat(a, init);
      assert PropAssignments(b) == PropAssignments(init) + item;
      AppendAssoc(PropAssignments(a), PropAssignments(init), item);
    }
  }

  /** Each SET item of the loop comes from one property, in order of the
      properties. */
  lemma {:induction false} PropItemSource<V>(kv: seq<(string, V)>, j: nat) returns (i: nat)
    requires j < |PropAssignments(kv)|
    ensures i < |kv| && PropAssignments(kv)[j] == PropertyAssignment(kv[i].0)
  {
    var init := kv[..|kv| - 1];
    var head := PropAssignments(init);
    assert PropAssignments(kv) == head + PropItem(kv[|kv| - 1]);
    if j < |head| {
      i := PropItemSource(init, j);
      assert init[i] == kv[i];
    } else {
      i := |kv| - 1;
      var item := PropItem(kv[i]);
      assert j == |head| && item != [];
      assert PropAssignments(kv)[j] == item[0];
    }
  }

  /** Every dynamic SET item of `create_entity` renders with exactly the two
      backticks that quote its property name. */
  lemma EntityPropertyItemsQuoted<V>(cc: CharClasses, e: Entity<V>, j: nat)
    requires j < |PropAssignments(KeyedProperties(cc, PropertyList(e)))|
    ensures Count(Render(PropAssignments(KeyedProperties(cc, PropertyList(e)))[j]), '`') == 2
  {
    var ps := PropertyList(e);
    var kv := KeyedProperties(cc, ps);
    var i := PropItemSource(kv, j);
    KeyedAt(cc, ps, i);
    PropertyItemQuoting(cc, ps[i].0);
  }

  /** A rendered property item holds exactly the two backticks that quote the
      property name, so the name cannot end the quoting early. */
  lemma PropertyItemQuoting(cc: CharClasses, key: string)
    ensures Count(Render(PropertyAssignment(SafeKey(cc, key))), '`') == 2
  {
    SafeKeyChars(cc, key);
    QuotedItemCount(SafeKey(cc, key));
  }

  lemma QuotedItemCount(k: string)
    requires '`' !in k
    ensures Count(Render(PropertyAssignment(k)), '`') == 2
  {
    var q := Quote(k);
    QuoteCount(k);
    CountConcat("n.", q, '`');
    CountConcat("n." + q, " = $", '`');
    CountConcat("n." + q + " = $", ParamName(k), '`');
    CountConcat("prop__", k, '`');
  }

  /** Every parameter the SET clause of `create_entity` names after `$` is a
      single word token: the base and metadata names as written, the property
      names by `ParamTokenIsWord`. */
  lemma EntityParamTokens<V>(cc: CharClasses, e: Entity<V>)
    requires WellFormed(cc)
    ensures var items := EntityAssignments(cc, e);
      forall j :: 0 <= j < |items| ==> IsWordToken(cc, items[j].param)
  {
    var ps := PropertyList(e);
    var kv := KeyedProperties(cc, ps);
    var fixed := BaseAssignments + (if e.metadata.Some? then [MetadataAssignment] else []);
    var pa := PropAssignments(kv);
    var items := fixed + pa;
    FixedParamsAreWords(cc);
    forall j | 0 <= j < |items| ensures IsWordToken(cc, items[j].param) {
      if j < |fixed| {
        assert items[j] == fixed[j];
      } else {
        var i := PropItemSource(kv, j - |fixed|);
        KeyedAt(cc, ps, i);
        ParamTokenIsWord(cc, ps[i].0);
      }
    }
  }

  lemma FixedParamsAreWords(cc: CharClasses)
    requires WellFormed(cc)
    ensures forall a :: a in BaseAssignments + [MetadataAssignment] ==> IsWordToken(cc, a.param)
  {
    forall a | a in BaseAssignments + [MetadataAssignment] ensures IsWordToken(cc, a.param) {
      assert forall i :: 0 <= i < |a.param| ==> IsAsciiLetterOrDigit(a.param[i]) || a.param[i] == '_';
    }
  }

  /** The rendered SET items. */
  function Rendered(items: seq<Assignment>): seq<string> {
    seq(|items|, i requires 0 <= i < |items| => Render(items[i]))
  }

  const CreateOpen: string := "\n        CREATE (n:"
  const SetOpen: string := ")\n        SET "
  const SetSeparator: string := ",\n            "
  const QueryClose: string := "\n        "

  /** The Cypher text of `create_entity` (load_neo4j.py:90-94): the labels sit
      unchanged after `CREATE (n:`, and the text adds no backtick to those of
      the labels and the SET items. */
  function EntityQuery<V>(w: EntityWrite<V>): (q: string)
    ensures CreateOpen + w.labels + SetOpen <= q
    ensures Count(q, '`') == Count(w.labels, '`') + CountAll(Rendered(w.assignments), '`')
  {
    EntityQueryCount(w.labels, Rendered(w.assignments));
    CreateOpen + w.labels + SetOpen + Join(Rendered(w.assignments), SetSeparator) + QueryClose
  }

  lemma EntityQueryCount(labels: string, items: seq<string>)
    ensures Count(CreateOpen + labels + SetOpen + Join(items, SetSeparator) + QueryClose, '`')
      == Count(labels, '`') + CountAll(items, '`')
  {
    EntityLiteralsUnquoted();
    CountJoin(items, SetSeparator, '`');
    CountConcat(CreateOpen, labels, '`');
    CountConcat(CreateOpen + labels, SetOpen, '`');
    CountConcat(CreateOpen + labels + SetOpen, Join(items, SetSeparator), '`');
    CountConcat(CreateOpen + labels + SetOpen + Join(items, SetSeparator), QueryClose, '`');
  }

  lemma EntityLiteralsUnquoted()
    ensures Count(CreateOpen, '`') == 0 && Count(SetOpen, '`') == 0
    ensures '`' !in SetSeparator && Count(QueryClose, '`') == 0
  {
    assert '`' !in CreateOpen;
    assert '`' !in SetOpen;
    assert '`' !in SetSeparator;
    assert '`' !in QueryClose;
  }

  /** The only backticks in the query of `create_entity` are the two around
      each label and the two around each dynamic property name. */
  lemma EntityQueryQuoting<V>(cc: CharClasses, e: Entity<V>)
    requires !e.labels.Null? && e.id.Some?
    ensures var safe := SanitizedLabels(cc, LabelList(e.labels));
      var w := EntityWrite(LabelsClause(cc, LabelList(e.labels)), EntityAssignments(cc, e), EntityParams(cc, e));
      Count(EntityQuery(w), '`')
        == 2 * (if safe == [] then 1 else |safe|) + 2 * |PropAssignments(KeyedProperties(cc, PropertyList(e)))|
  {
    LabelsClauseQuoting(cc, LabelList(e.labels));
    EntityItemsCount(cc, e);
  }

  /** The rendered SET items hold two backticks per dynamic property, and no
      others. */
  lemma EntityItemsCount<V>(cc: CharClasses, e: Entity<V>)
    ensures CountAll(Rendered(EntityAssignments(cc, e)), '`')
      == 2 * |PropAssignments(KeyedProperties(cc, PropertyList(e)))|
  {
    var fixed := BaseAssignments + (if e.metadata.Some? then [MetadataAssignment] else []);
    var pa := PropAssignments(KeyedProperties(cc, PropertyList(e)));
    assert EntityAssignments(cc, e) == fixed + pa;
    RenderedConcat(fixed, pa);
    CountAllConcat(Rendered(fixed), Rendered(pa), '`');
    FixedItemsUnquoted(e.metadata.Some?);
    PropItemsCount(cc, e);
  }

  lemma RenderedConcat(a: seq<Assignment>, b: seq<Assignment>)
    ensures Rendered(a + b) == Rendered(a) + Rendered(b)
  {
    assert forall i :: 0 <= i < |a| + |b| ==> Rendered(a + b)[i] == (Rendered(a) + Rendered(b))[i];
  }

  lemma PropItemsCount<V>(cc: CharClasses, e: Entity<V>)
    ensures var pa := PropAssignments(KeyedProperties(cc, PropertyList(e)));
      CountAll(Rendered(pa), '`') == 2 * |pa|
  {
    var pa := PropAssignments(KeyedProperties(cc, PropertyList(e)));
    forall j | 0 <= j < |Rendered(pa)| ensures Count(Rendered(pa)[j], '`') == 2 {
      EntityPropertyItemsQuoted(cc, e, j);
    }
    CountAllTwice(Rendered(pa), '`');
  }

  lemma FixedItemsUnquoted(metadata: bool)
    ensures CountAll(Rendered(BaseAssignments + (if metadata then [MetadataAssignment] else [])), '`') == 0
  {
    var items := BaseAssignments + (if metadata then [MetadataAssignment] else []);
    var r := Rendered(items);
    forall j | 0 <= j < |r| ensures Count(r[j], '`') == 0 {
      UnquotedItemCount(items[j]);
    }
    CountAllNone(r, '`');
  }

  /** An unquoted item of backtick-free names renders without backticks. */
  lemma UnquotedItemCount(a: Assignment)
    requires !a.quoted && '`' !in a.property && '`' !in a.param
    ensures Count(Render(a), '`') == 0
  {
    CountConcat("n.", a.property, '`');
    CountConcat("n." + a.property, " = $", '`');
    CountConcat("n." + a.property + " = $", a.param, '`');
  }

  // ---------------------------------------------------------------------------
  // Relationships without APOC (load_neo4j.py:114-133)

  /** An element of the input's "triplets" list; `metadata` as for entities. */
  datatype Triplet<V> = Triplet(
    subjectId: Option<V>,
    objectId: Option<V>,
    predicateName: Field<string>,
    properties: Field<map<string, V>>,
    metadata: Option<string>)

  /** What `create_relationship_native` passes to `tx.run`, with the relationship
      type that is spliced into the query text. */
  datatype RelationshipWrite<V> = RelationshipWrite(relType: string, subjectId: V, objectId: V, props: map<string, Param<V>>)

  /** `triplet.get("predicate", "RELATED_TO")` as `rel_type_safe` receives it. */
  function PredicateArgument(p: Field<string>): (r: Option<string>)
    ensures p.Missing? ==> r == Some(Fallback)
    ensures p.Null? ==> r.None?
    ensures p.Given? ==> r == Some(p.value)
  {
    match p
    case Missing => Some(Fallback)
    case Null => None
    case Given(s) => Some(s)
  }

  /** The triplet's properties: an absent member is the empty mapping. */
  function GivenProperties<V>(t: Triplet<V>): (r: map<string, V>)
    ensures t.properties.Given? ==> r == t.properties.value
    ensures t.properties.Missing? ==> r == map[]
  {
    if t.properties.Given? then t.properties.value else map[]
  }

  /** The `props` parameter: the properties copied, then "metadata" set to the
      serialised metadata when there is some. */
  function RelationshipProps<V>(given: map<string, V>, metadata: Option<string>): (r: map<string, Param<V>>)
    ensures r.Keys == given.Keys + (if metadata.Some? then {"metadata"} else {})
  {
    var copied := map k | k in given :: Json(given[k]);
    if metadata.Some? then copied["metadata" := Str(metadata.value)] else copied
  }

  /** `create_relationship_native(tx, triplet)` up to the `tx.run` call. */
  method CreateRelationshipNative<V>(cc: CharClasses, t: Triplet<V>) returns (r: Result<RelationshipWrite<V>, LoadError>)
    ensures t.properties.Null? ==> r == Failure(PropertiesNotAMapping)
    ensures !t.properties.Null? && t.subjectId.None? ==> r == Failure(MissingSubjectId)
    ensures !t.properties.Null? && t.subjectId.Some? && t.objectId.None? ==> r == Failure(MissingObjectId)
    ensures !t.properties.Null? && t.subjectId.Some? && t.objectId.Some? ==>
      r == Success(RelationshipWrite(
        RelTypeSafe(cc, PredicateArgument(t.predicateName)),
        t.subjectId.value, t.objectId.value,
        RelationshipProps(GivenProperties(t), t.metadata)))
  {
    var relType := RelTypeSafe(cc, PredicateArgument(t.predicateName));
    if t.properties.Null? {
      return Failure(PropertiesNotAMapping);
    }
    var given := GivenProperties(t);
    var properties := map k | k in given :: Json(given[k]);
    if t.metadata.Some? {
      properties := properties["metadata" := Str(t.metadata.value)];
    }
    if t.subjectId.None? {
      return Failure(MissingSubjectId);
    }
    if t.objectId.None? {
      return Failure(MissingObjectId);
    }
    r := Success(RelationshipWrite(relType, t.subjectId.value, t.objectId.value, properties));
  }

  /** The `props` parameter holds every given property unchanged, except that
      the metadata, when present, replaces a "metadata" property; nothing else. */
  lemma RelationshipPropsContents<V>(given: map<string, V>, metadata: Option<string>)
    ensures var m := RelationshipProps(given, metadata);
      && (forall k :: k in m <==> k in given || (k == "metadata" && metadata.Some?))
      && (metadata.Some? ==> m["metadata"] == Str(metadata.value))
      && (forall k :: k in given && (k != "metadata" || metadata.None?) ==> m[k] == Json(given[k]))
  {
  }

  /** Whatever the predicate, the relationship type is a non-empty upper-case
      token; a missing predicate gives "RELATED_TO" and a null one too. */
  lemma RelationshipTypeOfTriplet(cc: CharClasses, p: Field<string>)
    requires WellFormed(cc)
    ensures var r := RelTypeSafe(cc, PredicateArgument(p));
      && (p.Missing? || p.Null? ==> r == Fallback)
      && r != [] && forall i :: 0 <= i < |r| ==> cc.isWord(r[i]) && cc.upper(r[i]) == r[i]
  {
    RelTypeSafeIsSafeToken(cc, PredicateArgument(p));
    if p.Missing? {
      FallbackIsFixed(cc);
    }
  }

  /** The Cypher text of `create_relationship_native` (load_neo4j.py:124-129),
      around the relationship type. */
  const MatchSubject: string := "\n        MATCH (a {id: $subject_id})"
  const MatchObject: string := "\n        MATCH (b {id: $object_id})"
  const CreateHead: string := "\n        CREATE (a)-[r:"
  const RelationshipQueryHead: string := MatchSubject + MatchObject + CreateHead
  const RelationshipQueryTail: string := " $props]->(b)\n        RETURN r\n        "

  /** The relationship query places the quoted type right after `[r:`, ends
      with the fixed tail, and adds exactly two backticks to those of the type. */
  function RelationshipQuery(relType: string): (q: string)
    ensures RelationshipQueryHead + Quote(relType) <= q
    ensures |RelationshipQueryTail| <= |q| && q[|q| - |RelationshipQueryTail|..] == RelationshipQueryTail
    ensures Count(q, '`') == Count(relType, '`') + 2
  {
    QueryCount(relType);
    RelationshipQueryHead + Quote(relType) + RelationshipQueryTail
  }

  /** The only backticks in the relationship query are the two around the type:
      one right after `[r:`, then the type, then the other. */
  lemma RelationshipQueryQuoting(cc: CharClasses, rel: Option<string>)
    requires WellFormed(cc)
    ensures var r := RelTypeSafe(cc, rel);
      var q := RelationshipQuery(r);
      var h := |RelationshipQueryHead|;
      && h + |r| + 2 <= |q|
      && q[h] == '`' && q[h + 1..h + 1 + |r|] == r && q[h + 1 + |r|] == '`'
      && Count(q, '`') == 2
  {
    var r := RelTypeSafe(cc, rel);
    QuotedAfter(RelationshipQueryHead, r, RelationshipQuery(r));
    RelTypeSafeIsSafeToken(cc, rel);
    assert '`' !in r;
  }

  /** A quoted name right after a prefix `hd`: a backtick at `|hd|`, the name,
      and a backtick after it. */
  lemma QuotedAfter(hd: string, x: string, q: string)
    requires hd + Quote(x) <= q
    ensures |hd| + |x| + 2 <= |q|
    ensures q[|hd|] == '`' && q[|hd| + 1..|hd| + 1 + |x|] == x && q[|hd| + 1 + |x|] == '`'
  {
    var n := |hd|;
    var qx := Quote(x);
    assert forall i :: 0 <= i < |qx| ==> q[n + i] == qx[i];
    assert q[n + 1..n + 1 + |x|] == qx[1..|qx| - 1];
  }

  lemma QueryCount(r: string)
    ensures Count(RelationshipQueryHead + Quote(r) + RelationshipQueryTail, '`') == Count(r, '`') + 2
  {
    QuoteCount(r);
    LiteralsUnquoted();
    CountConcat(RelationshipQueryHead, Quote(r), '`');
    CountConcat(RelationshipQueryHead + Quote(r), RelationshipQueryTail, '`');
  }

  /** Quoting adds exactly two backticks. */
  lemma QuoteCount(x: string)
    ensures Count(Quote(x), '`') == Count(x, '`') + 2
  {
    CountConcat("`", x, '`');
    CountConcat("`" + x, "`", '`');
  }

  lemma LiteralsUnquoted()
    ensures Count(RelationshipQueryHead, '`') == 0
    ensures Count(RelationshipQueryTail, '`') == 0
  {
    SubjectUnquoted();
    ObjectUnquoted();
    CreateUnquoted();
    CountConcat(MatchSubject, MatchObject, '`');
    CountConcat(MatchSubject + MatchObject, CreateHead, '`');
    TailUnquoted();
  }

  lemma SubjectUnquoted()
    ensures Count(MatchSubject, '`') == 0
  {
    assert '`' !in MatchSubject;
  }

  lemma ObjectUnquoted()
    ensures Count(MatchObject, '`') == 0
  {
    assert '`' !in MatchObject;
  }

  lemma CreateUnquoted()
    ensures Count(CreateHead, '`') == 0
  {
    assert '`' !in CreateHead;
  }

  lemma TailUnquoted()
    ensures '`' !in RelationshipQueryTail
  {
  }
}
