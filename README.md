# vue-yup-wrapper-reactive: the form builder `useYupForm`, modelled in Dafny

`useYupForm(config)` takes one entry per form field: an initial value, a yup
validator and an optional display label. It returns:

- `form`, the current values, which start as a copy of the initial values;
- `errors`, one message per field, which starts empty;
- `validate()`, which runs the schema. It clears `errors` when the form is
  valid. On a `ValidationError` it rebuilds `errors` from the failures. Each
  message has the field key replaced by the field's label, as a whole word
  and ignoring case;
- `reset()`, which writes the initial values back and clears `errors`;
- `getFieldLabel(key)` and `fieldLabels`, which give the label, or the key
  when there is no label.

The model has two modules.

- `WholeWord` (whole_word.dfy) models
  `message.replace(new RegExp('\\b' + path + '\\b', 'gi'), label)` as a
  left-to-right scan, `ReplaceWholeWordCI`. It is exact for paths of ASCII word
  characters: `\b` compares the word-ness of two neighbouring characters, and
  `i` folds ASCII letters. The lemmas describe the result completely:
  - a message with no whole-word occurrence comes back unchanged;
  - at every occurrence the message splits into the text before it, the label
    and the text after it, and each side is rewritten on its own;
  - occurrences never overlap.
  Further lemmas say what is left after the rewrite: no whole word equal to the
  key remains, and with the key as its own label only letter case changes.
- `YupForm` (yup_form.dfy) models the rest:
  - the configuration: `Field`, one entry with its initial value and optional label;
  - `getFieldLabel` and the two `reduce` folds over `Object.entries(config)`;
  - `ErrorMap`, the error map that `validate` builds;
  - the class `Form`, whose fields `form` and `errors` are updated in place by
    `Validate` and `Reset`.

  The outcome of `schema.validate` is an input to `Validate`. It is `Resolved`, a
  `ValidationError` carrying its `inner` failures, or `OtherError`.

## Model

| member | source | states |
|---|---|---|
| `YupForm.OrElse` | src/useForm.ts:36 | JavaScript's `label \|\| key` on an optional string; it has no contract of its own, and `GetFieldLabel` states both of its cases |
| `YupForm.GetFieldLabel` | src/useForm.ts:34-37 | the configured label when it is defined and non-empty, otherwise the key itself |
| `YupForm.FieldLabelsOf` | src/useForm.ts:40-46 | the `fieldLabels` fold has exactly the visited keys, and each maps to `GetFieldLabel` of that key |
| `YupForm.InitialValuesOf` | src/useForm.ts:12-15 | the `initialValues` fold has exactly the visited keys, and each maps to the first element of its configuration entry |
| `YupForm.ObjectAssign` | src/useForm.ts:85 | `Object.assign` takes every key of the source and keeps the target's other keys, deleting none |
| `YupForm.Form.constructor` | src/useForm.ts:48-51 | the result is the same for every order of `Object.entries`; `form` maps each configured key to its initial value and has no other key; `errors` is empty; labels agree with `GetFieldLabel` |
| `YupForm.Form.Validate` | src/useForm.ts:53-82 | `Resolved` returns true and empties `errors` whatever it held; `ValidationError` returns false and replaces `errors` with `ErrorMap` of the failures, not merged with the old map, so every key of `errors` is then a configured key; any other rejection returns false and leaves `errors` as it was; `form` is not touched |
| `YupForm.Form.Reset` | src/useForm.ts:84-87 | every configured key of `form` gets its initial value back; other keys of `form` keep their values and none is deleted; `errors` becomes empty |
| `YupForm.HasPath` | src/useForm.ts:62 | `if (error.path)`: the path is defined and not empty; it has no contract of its own, and `ErrorMapKeys` states what it decides |
| `YupForm.Relabel` | src/useForm.ts:64-69 | the message shown for one failure, the path replaced by the field's label; it has no contract of its own, and `RelabelAtMatch` states what it does |
| `YupForm.RelabelAtMatch` | src/useForm.ts:64-69 | at a whole-word occurrence of the path, the shown message is the rewritten text before it, the field's label, and the rewritten text after it; if the label does not contain the path as a whole word, the shown message does not either, in exact spelling or in any case |
| `YupForm.ErrorMap` | src/useForm.ts:60-72 | `newErrors` after the `forEach` over the failures; every key with a message is a configured key |
| `YupForm.ErrorMapKeys` | src/useForm.ts:61-72 | a key has a message if and only if some failure carries it as a defined, non-empty path |
| `YupForm.ErrorMapLastWins` | src/useForm.ts:70 | the message stored for a path is the relabelled message of the last failure with that path |
| `YupForm.ErrorMessageUsesLabel` | src/useForm.ts:62-74 | where the key occurs as a whole word in that message, the stored message has the label in its place; if the label does not contain the key as a whole word, the key no longer occurs as a whole word, in exact spelling or in any case |
| `YupForm.AgeErrorMessage` | src/useForm.ts:53-74 | the failure "age must be greater than or equal to 18" on field `age` with label `Age` becomes `errors.age == "Age must be greater than or equal to 18"` |
| `WholeWord.ReplaceWholeWordCI` | src/useForm.ts:66-69 | `message.replace(new RegExp('\\b' + path + '\\b', 'gi'), label)`, scanning left to right and resuming after each match; it has no contract of its own, and `ReplaceNoMatchUnchanged` with `ReplaceSplitsAtMatch` determine its result for every message |
| `WholeWord.ReplaceNoMatchUnchanged` | src/useForm.ts:66-69 | a message without a whole-word, case-insensitive occurrence of the path comes back unchanged |
| `WholeWord.ReplaceSplitsAtMatch` | src/useForm.ts:66-69 | at every whole-word occurrence, the result is the rewritten text before it, then the label, then the rewritten text after it |
| `WholeWord.MatchesDoNotOverlap` | src/useForm.ts:67 | two whole-word matches of the path are separated by at least one non-word character |
| `WholeWord.NoWholeWordRemains` | src/useForm.ts:66-69 | if the label has no whole-word occurrence of the path, the result has none either, with or without case folding |
| `WholeWord.ReplaceWithKeyNormalises` | src/useForm.ts:66-69 | with the key as its own label (no label configured), the result differs from the message only in letter case, and each occurrence takes the key's exact spelling |
| `WholeWord.ReplaceLeadingKey` | src/useForm.ts:66-69 | a message that starts with the key, followed by a separator, and has no other occurrence gets the label in front and the rest unchanged |
| `WholeWord.InsideLongerWordKept` | src/useForm.ts:67 | "age" inside "page" is not replaced |
| `WholeWord.AgeMessageRelabelled` | src/useForm.ts:66-69 | "age must be greater than or equal to 18" with path `age` and label `Age` becomes "Age must be greater than or equal to 18" |
| `WholeWord.OneWordNoMatch` | src/useForm.ts:67 | a single word, possibly after one separator, contains the path as a whole word only if the word is the path |
| `WholeWord.ConcatHasNoWholeWord` | src/useForm.ts:67 | joining two texts at a non-word character creates no new whole-word occurrence |

## Left out

- The schema is not modelled. That covers cloning each validator, attaching its label with `.label()` and `YUP_OBJECT().shape` (src/useForm.ts:17-31). It also covers `schema.validate` (src/useForm.ts:55). These are calls into yup. What `schema.validate` did is the `Outcome` parameter of `Validate`, and `Field` has no validator.
- A `ValidationError` whose `inner` is not an array takes the "unexpected error" branch, so it is modelled as `OtherError`.
- Vue's `reactive` and `ref` change notification is left out. `form` and `errors` are plain fields of `Form`.
- The UI writes to `form` directly, and the model lets callers assign the field `form` in the same way.
- `validate` is `async`. Two overlapping calls can race on `errors`, and that concurrency is not modelled. Each `Validate` runs to completion.
- The `console.error` logging on an unexpected error is not modelled.
- `Form.Validate` requires every failure path to be a configured key. For any other path `config[path]` is undefined, so `getFieldLabel` throws and `validate` rejects. An example is a nested yup path such as `address.city`. The model does not cover that rejection.
- `Form.Validate` also requires failure paths made of ASCII word characters, so no regular-expression metacharacter reaches the `RegExp` (src/useForm.ts:67). Case folding covers ASCII only.
- `Form.Validate` requires labels without `$`. `String.prototype.replace` expands `$&`, `` $` ``, `$'` and `$$` in the replacement, and the model inserts the label literally.
- Initial values are opaque, so the shallow copy is not modelled. With `{ ...initialValues }` and `Object.assign`, an object or array initial value is shared between `initialValues` and `form`. Mutating it in place is not modelled.
- `Object.entries` order is a parameter of the constructor. Both folds give the same map for every order.
- The re-exports `YUP` and `YUP_OBJECT` (src/useForm.ts:4-5) are not part of this model. Neither is src/index.ts, which only re-exports and declares version constants, nor the bundler configuration rollup.config.js.
- Two behaviours of the code that a reader may not expect:
  - `reset` overwrites only the configured keys and keeps any other key of `form`. So `form` equals the initial values after `reset` only when it held no other key.
  - A label may itself contain the key as a whole word, ignoring case: the label `Age` does for the key `age`. Then the rewritten message still matches `\bage\b` with the `i` flag. `ErrorMessageUsesLabel` states the exact condition.
