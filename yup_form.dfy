/**
 * The form builder `useYupForm`: from a per-field configuration (initial value,
 * validator, optional label) it derives the initial values and the label of
 * every field, and keeps two pieces of state, the form values and the error
 * messages, which `validate` and `reset` update.
 *
 * The validators and the schema built from them belong to the validation
 * library; here the outcome of validating the form is an input to Validate.
 */
module YupForm {
  import opened WholeWord

  datatype Option<T> = None | Some(value: T)

  /** One entry of the configuration: `[initialValue, validator, label?]` without the validator. */
  datatype Field<V> = Field(initial: V, displayLabel: Option<string>)

  /** JavaScript's `a || b` for an optional string `a`: undefined and "" are falsy. */
  function OrElse(a: Option<string>, b: string): string {
    if a.Some? && a.value != "" then a.value else b
  }

  /** `getFieldLabel(key)` */
  function GetFieldLabel<V>(config: map<string, Field<V>>, key: string): (name: string)
    requires key in config
    ensures config[key].displayLabel.Some? && config[key].displayLabel.value != "" ==> name == config[key].displayLabel.value
    ensures config[key].displayLabel.None? || config[key].displayLabel.value == "" ==> name == key
  {
    OrElse(config[key].displayLabel, key)
  }

  /** `Object.assign(target, source)`: copies every key of source, deletes none of target. */
  function ObjectAssign<K, V>(target: map<K, V>, source: map<K, V>): (r: map<K, V>)
    ensures r.Keys == target.Keys + source.Keys
    ensures forall k :: k in source ==> r[k] == source[k]
    ensures forall k :: k in target && k !in source ==> r[k] == target[k]
  {
    target + source
  }

  /**
   * `initialValues`: the `reduce` over `Object.entries(config)` that copies
   * each field's initial value; `order` is the order in which the entries
   * are visited.
   */
  function InitialValuesOf<V>(config: map<string, Field<V>>, order: seq<string>): (values: map<string, V>)
    requires forall i :: 0 <= i < |order| ==> order[i] in config
    ensures values.Keys == set i | 0 <= i < |order| :: order[i]
    ensures forall k :: k in values ==> k in config && values[k] == config[k].initial
  {
    if order == [] then map[]
    else
      var key := order[|order| - 1];
      InitialValuesOf(config, order[..|order| - 1])[key := config[key].initial]
  }

  /** `fieldLabels`: the `reduce` that maps each key to `label || key`. */
  function FieldLabelsOf<V>(config: map<string, Field<V>>, order: seq<string>): (labels: map<string, string>)
    requires forall i :: 0 <= i < |order| ==> order[i] in config
    ensures labels.Keys == set i | 0 <= i < |order| :: order[i]
    ensures forall k :: k in labels ==> k in config && labels[k] == GetFieldLabel(config, k)
  {
    if order == [] then map[]
    else
      var key := order[|order| - 1];
      FieldLabelsOf(config, order[..|order| - 1])[key := OrElse(config[key].displayLabel, key)]
  }

  /** One entry of `ValidationError.inner`; a path of undefined is None. */
  datatype Failure = Failure(path: Option<string>, message: string)

  /** What `schema.validate(form, { abortEarly: false })` does. */
  datatype Outcome =
    | Resolved                             // the form is valid
    | ValidationError(inner: seq<Failure>) // rejected with a `Yup.ValidationError`
    | OtherError                           // rejected with anything else

  /** `if (error.path)`: the path is defined and not empty. */
  predicate HasPath(f: Failure) {
    f.path.Some? && f.path.value != ""
  }

  /**
   * What this model needs of a failure's path: a key of the configuration
   * (`getFieldLabel` reads `config[path][2]`, which throws for any other key),
   * made of word characters, whose label has no `$` pattern.
   */
  predicate PathCovered<V>(config: map<string, Field<V>>, f: Failure)
    requires HasPath(f)
  {
    var key := f.path.value;
    key in config && IsWord(key) && '$' !in GetFieldLabel(config, key)
  }

  predicate FailuresCovered<V>(config: map<string, Field<V>>, inner: seq<Failure>) {
    forall i :: 0 <= i < |inner| && HasPath(inner[i]) ==> PathCovered(config, inner[i])
  }

  /** The message shown for one failure: the path replaced by the field's label. */
  function Relabel<V>(config: map<string, Field<V>>, f: Failure): string
    requires HasPath(f) && PathCovered(config, f)
  {
    var key := f.path.value;
    ReplaceWholeWordCI(f.message, key, GetFieldLabel(config, key))
  }

  /** `newErrors` after the `forEach` over `inner`: every key with a message is a configured key. */
  function ErrorMap<V>(config: map<string, Field<V>>, inner: seq<Failure>): (errors: map<string, string>)
    requires FailuresCovered(config, inner)
    ensures errors.Keys <= config.Keys
  {
    if inner == [] then map[]
    else
      var errors := ErrorMap(config, inner[..|inner| - 1]);
      var f := inner[|inner| - 1];
      if HasPath(f) then ObjectAssign(errors, map[f.path.value := Relabel(config, f)]) else errors
  }

  // ---------------------------------------------------------------------------
  // The error map

  /** A key has a message exactly when some failure carries it as a non-empty path. */
  lemma {:induction false} ErrorMapKeys<V>(config: map<string, Field<V>>, inner: seq<Failure>, key: string)
    requires FailuresCovered(config, inner)
    ensures key in ErrorMap(config, inner) <==> exists i :: 0 <= i < |inner| && HasPath(inner[i]) && inner[i].path.value == key
  {
    if inner != [] {
      var prefix := inner[..|inner| - 1];
      ErrorMapKeys(config, prefix, key);
      if exists i :: 0 <= i < |prefix| && HasPath(prefix[i]) && prefix[i].path.value == key {
        var i :| 0 <= i < |prefix| && HasPath(prefix[i]) && prefix[i].path.value == key;
        assert inner[i] == prefix[i];
      }
      if i :| 0 <= i < |inner| && HasPath(inner[i]) && inner[i].path.value == key {
        if i < |prefix| {
          assert prefix[i] == inner[i];
        }
      }
    }
  }

  /** A path's message is the relabelled message of the last failure with that path. */
  lemma {:induction false} ErrorMapLastWins<V>(config: map<string, Field<V>>, inner: seq<Failure>, i: nat)
    requires FailuresCovered(config, inner)
    requires i < |inner| && HasPath(inner[i])
    requires forall j :: i < j < |inner| ==> inner[j].path != inner[i].path
    ensures inner[i].path.value in ErrorMap(config, inner)
    ensures ErrorMap(config, inner)[inner[i].path.value] == Relabel(config, inner[i])
  {
    if i < |inner| - 1 {
      var prefix := inner[..|inner| - 1];
      assert prefix[i] == inner[i];
      ErrorMapLastWins(config, prefix, i);
    }
  }

  /**
   * Where the path occurs as a whole word in the message of its last failure,
   * the message shown holds the field's label there; and when the label does
   * not itself contain the key as a whole word, the key no longer appears as a
   * whole word, spelled exactly or in any case.
   */
  lemma ErrorMessageUsesLabel<V>(config: map<string, Field<V>>, inner: seq<Failure>, i: nat, j: nat)
    requires FailuresCovered(config, inner)
    requires i < |inner| && HasPath(inner[i])
    requires forall l :: i < l < |inner| ==> inner[l].path != inner[i].path
    requires MatchAt(inner[i].message, inner[i].path.value, j)
    ensures var key, message := inner[i].path.value, inner[i].message;
            var shownLabel := GetFieldLabel(config, key);
            && key in ErrorMap(config, inner)
            && ErrorMap(config, inner)[key]
               == ReplaceWholeWordCI(message[..j], key, shownLabel) + shownLabel + ReplaceWholeWordCI(message[j + |key|..], key, shownLabel)
            && (forall ignoreCase: bool :: !HasWholeWord(shownLabel, key, ignoreCase) ==> !HasWholeWord(ErrorMap(config, inner)[key], key, ignoreCase))
  {
    ErrorMapLastWins(config, inner, i);
    RelabelAtMatch(config, inner[i], j);
  }

  /** ErrorMessageUsesLabel for one failure's shown message. */
  lemma RelabelAtMatch<V>(config: map<string, Field<V>>, f: Failure, j: nat)
    requires HasPath(f) && PathCovered(config, f)
    requires MatchAt(f.message, f.path.value, j)
    ensures var key := f.path.value;
            var shownLabel := GetFieldLabel(config, key);
            && Relabel(config, f)
               == ReplaceWholeWordCI(f.message[..j], key, shownLabel) + shownLabel + ReplaceWholeWordCI(f.message[j + |key|..], key, shownLabel)
            && (forall ignoreCase: bool :: !HasWholeWord(shownLabel, key, ignoreCase) ==> !HasWholeWord(Relabel(config, f), key, ignoreCase))
  {
    RewriteAtMatch(f.message, f.path.value, GetFieldLabel(config, f.path.value), j);
  }

  /** The failure "age must be greater than or equal to 18" on the field "age", labelled "Age". */
  lemma AgeErrorMessage()
    ensures var config := map["age" := Field(0, Some("Age"))];
            var inner := [Failure(Some("age"), "age" + AgeMessageTailText)];
            FailuresCovered(config, inner) &&
            ErrorMap(config, inner) == map["age" := "Age" + AgeMessageTailText]
  {
    var config := map["age" := Field(0, Some("Age"))];
    var inner := [Failure(Some("age"), "age" + AgeMessageTailText)];
    assert GetFieldLabel(config, "age") == "Age";
    assert PathCovered(config, inner[0]);
    AgeMessageRelabelled();
    assert inner[..0] == [];
  }

  // ---------------------------------------------------------------------------
  // The state kept by one `useYupForm` call

  class Form<V> {
    const config: map<string, Field<V>>
    const initialValues: map<string, V>
    const fieldLabels: map<string, string>
    /** the reactive form values; the UI writes to it directly */
    var form: map<string, V>
    /** `errors.value` */
    var errors: map<string, string>

    /** The derived constants agree with the configuration. */
    ghost predicate Valid()
    {
      && initialValues.Keys == config.Keys
      && (forall k :: k in config ==> initialValues[k] == config[k].initial)
      && fieldLabels.Keys == config.Keys
      && (forall k :: k in config ==> fieldLabels[k] == GetFieldLabel(config, k))
    }

    /** `useYupForm(config)`, with `order` the order of `Object.entries(config)`. */
    constructor (config: map<string, Field<V>>, order: seq<string>)
      requires forall k :: k in order <==> k in config
      ensures Valid() && this.config == config
      ensures form.Keys == config.Keys && forall k :: k in config ==> form[k] == config[k].initial
      ensures form == initialValues
      ensures errors == map[]
    {
      assert forall k :: k in config ==> k in set i | 0 <= i < |order| :: order[i];
      var values := InitialValuesOf(config, order);
      this.config := config;
      initialValues := values;
      fieldLabels := FieldLabelsOf(config, order);
      form := values;
      errors := map[];
    }

    /** `validate()`, given what `schema.validate` did; returns whether the form is valid. */
    method Validate(outcome: Outcome) returns (ok: bool)
      requires Valid()
      requires outcome.ValidationError? ==> FailuresCovered(config, outcome.inner)
      modifies this`errors
      ensures Valid()
      ensures ok <==> outcome.Resolved?
      ensures outcome.Resolved? ==> errors == map[]
      ensures outcome.ValidationError? ==> errors == ErrorMap(config, outcome.inner)
      ensures outcome.OtherError? ==> errors == old(errors)
    {
      match outcome
      case Resolved =>
        errors := map[];
        ok := true;
      case ValidationError(inner) =>
        var newErrors := map[];
        for i := 0 to |inner|
          invariant newErrors == ErrorMap(config, inner[..i])
        {
          var error := inner[i];
          assert inner[..i + 1][..i] == inner[..i];
          if error.path.Some? && error.path.value != "" {
            var fieldLabel := GetFieldLabel(config, error.path.value);
            var customMessage := ReplaceWholeWordCI(error.message, error.path.value, fieldLabel);
            newErrors := ObjectAssign(newErrors, map[error.path.value := customMessage]);
          }
        }
        assert inner[..|inner|] == inner;
        errors := newErrors;
        ok := false;
      case OtherError =>
        ok := false;
    }

    /** `reset()`: `Object.assign(form, initialValues)` and no errors. */
    method Reset()
      requires Valid()
      modifies this`form, this`errors
      ensures Valid()
      ensures form.Keys == old(form).Keys + config.Keys
      ensures forall k :: k in config ==> form[k] == config[k].initial
      ensures forall k :: k in old(form) && k !in config ==> form[k] == old(form)[k]
      ensures errors == map[]
    {
      form := ObjectAssign(form, initialValues);
      errors := map[];
    }
  }

  /** An "age" field labelled "Age", validated with the failure `message`. */
  method AgeFormValidation(message: string)
    requires message == "age" + AgeMessageTailText
  {
    var config := map["age" := Field(0, Some("Age"))];
    var failures := [Failure(Some("age"), message)];
    AgeErrorMessage();
    var f := new Form(config, ["age"]);
    assert f.fieldLabels["age"] == "Age";
    var ok := f.Validate(ValidationError(failures));
    assert !ok && f.errors == map["age" := "Age" + AgeMessageTailText];
    ok := f.Validate(OtherError);
    assert !ok && f.errors == map["age" := "Age" + AgeMessageTailText];
    ok := f.Validate(Resolved);
    assert ok && f.errors == map[];
  }

  /** An "age" field labelled "Age", edited and then reset. */
  method AgeFormReset() {
    var config := map["age" := Field(0, Some("Age"))];
    var f := new Form(config, ["age"]);
    assert f.form == map["age" := 0];
    f.form := f.form["age" := 12];
    f.Reset();
    assert f.form == map["age" := 0] && f.errors == map[];
  }
}
