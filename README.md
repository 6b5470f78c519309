# Polymorpheus polymorphic interface, modelled in Dafny

Polymorpheus lets an ActiveRecord model declare one logical "polymorphic
reference" backed by several mutually exclusive foreign-key columns:
`belongs_to_polymorphic :dog, :kitty, as: :pet` gives a record a `pet` that is
stored either in `dog_id` or in `kitty_id`, never both. This project models
that mixin (`lib/polymorpheus/interface.rb`) and proves what its generated
methods promise.

- `wrappers.dfy` (module `Wrappers`): `Option` for Ruby's `nil`, `Result`
  for a value or a raised exception.
- `ruby_text.dfy` (module `RubyText`): the string behaviour the mixin leans on:
  `downcase`, `Array#join`, `Array#inspect` and `gsub(/_id$/, '')` (which, like
  Ruby's `$`, also removes an `_id` that stands before a line break).
- `interface.dfy` (module `Interface`): the declaration as a `Polymorph` value
  (API name and lowercased association list), the key list, the pure helpers
  `Types`, `ActiveKey`, `QueryCondition` and the getter as functions over the
  record's columns and association readers, the setter's type decision
  `Resolve`, the exception messages, and a `Record` class whose
  `AssignPolymorph` (the setter) and `ValidateRelationship` (the validator)
  change the record in place.

Runtime introspection becomes data: the setter receives an `Obj` carrying the
object's own type tag (`obj.class.name.underscore`), its parent's type tag
(`obj.class.superclass.name.underscore`) and its optional id. The record's
columns are a map from column name to an optional integer id; its association
readers are a map from association name to the object that reader returns.

The library defines `InvalidTypeError` for an object whose type is not
declared, but the setter as written raises the base `PolymorphicError` with the
association list as its argument (so its message is that list's `inspect`
form). The model follows the code: `Resolve` returns `Base(associations)` in
that case, and `InvalidTypeError` appears only through its message.

Ruby's `present?` on an integer id is "not nil", so `Present` is exact for the
columns modelled here. If two declared names lowercase to the same association,
their key appears twice in the key list: when that column is set it is selected
twice, so it is never the active key (another, unrepeated key can still be).
The lemmas about the setter's effect on the active key therefore assume the
association list has no repetitions.

## Model

| member | source | states |
|---|---|---|
| `RubyText.Downcase` | lib/polymorpheus/interface.rb:28 | the result has the input's length; every upper-case ASCII letter becomes its lower-case letter (code point plus 32) and every other character is kept |
| `RubyText.StripIdOfKey` | lib/polymorpheus/interface.rb:58 | stripping `_id` from `<name>_id` gives back the name, for any name without a line break |
| `RubyText.JoinMentionsEach` | lib/polymorpheus/interface.rb:88 | every element of a list occurs in the list joined with a separator |
| `RubyText.InspectMentionsEach` | lib/polymorpheus/interface.rb:72 | the `inspect` text of the association list names every association |
| `Interface.BelongsToPolymorphic` | lib/polymorpheus/interface.rb:25-28 | the association list has one entry per declared name, in declaration order, each the name lowercased (same length, every upper-case letter replaced by its lower-case letter, other characters unchanged) |
| `Interface.Keys` | lib/polymorpheus/interface.rb:29 | one key per association, position by position: key i is association i followed by `_id`, and, for an association name without a line break, stripping `_id` from it gives back association i |
| `Interface.KeysDistinct` | lib/polymorpheus/interface.rb:29 | distinct associations have distinct keys |
| `Interface.Types` | lib/polymorpheus/interface.rb:40-42 | `_types` is the association list unchanged |
| `Interface.Intersect` | lib/polymorpheus/interface.rb:70 | `&` keeps exactly the elements in both lists, each once (its order is not stated; the setter uses only membership and count) |
| `Interface.PresentKeys` | lib/polymorpheus/interface.rb:45 | the selected keys are exactly the declared keys whose column is set |
| `Interface.ActiveKey` | lib/polymorpheus/interface.rb:44-47 | an active key is a declared key whose column is set |
| `Interface.ActiveKeyUnique` | lib/polymorpheus/interface.rb:44-47 | the active key is k if and only if k is at the one and only position of the key list whose column is set |
| `Interface.NoActiveKeyUnlessExactlyOne` | lib/polymorpheus/interface.rb:44-47 | there is no active key if and only if zero, or two or more, key positions are set |
| `Interface.QueryCondition` | lib/polymorpheus/interface.rb:49-52 | a condition exists if and only if there is an active key, and it is the one-entry map from that key to the id stored in it |
| `Interface.Getter` | lib/polymorpheus/interface.rb:55-64 | the getter only ever returns an object some association reader returns |
| `Interface.GetterFollowsActiveKey` | lib/polymorpheus/interface.rb:56-58 | with an active key `<a>_id`, for an association name a without a line break, the getter returns what the reader of a returns |
| `Interface.GetterFallback` | lib/polymorpheus/interface.rb:59-63 | without an active key, the getter returns an object if and only if exactly one association reader returns one, and then it is that object |
| `Interface.Resolve` | lib/polymorpheus/interface.rb:68-75 | no declared tag raises the base error with the association list; both tags declared and different raises `AmbiguousTypeError`; the setter succeeds exactly when neither holds, and then the match is the own tag if declared, else the parent tag |
| `Interface.Record.AssignPolymorph` | lib/polymorpheus/interface.rb:67-81 | on an error the columns are unchanged and the error is raised; on success the matched key holds the object's id, every other declared key is nil and no other column changes |
| `Interface.AssignedActiveKey` | lib/polymorpheus/interface.rb:75-80 | for an association list without repetitions, after a successful assignment the active key is the matched key when the object has an id, and there is none when it has not |
| `Interface.AssignOverwrites` | lib/polymorpheus/interface.rb:75-80 | a second successful assignment leaves the same columns as if the first had not happened |
| `Interface.AssignedGetter` | lib/polymorpheus/interface.rb:55-80 | for an association list without repetitions and a matched name without a line break, after assigning an object with an id the getter returns what the matched association's reader returns |
| `Interface.Message` | lib/polymorpheus/interface.rb:3-17 | the base error's message is the `inspect` of its argument, `InvalidTypeError`'s lists the accepted types, `AmbiguousTypeError`'s is fixed |
| `Interface.InvalidTypeMessage` | lib/polymorpheus/interface.rb:6-9 | the message starts with "Invalid type. Must be one of {" and ends with "}" |
| `Interface.InvalidTypeMessageNamesEach` | lib/polymorpheus/interface.rb:6-9 | `InvalidTypeError`'s message names every accepted type |
| `Interface.UnmatchedMessageNamesEach` | lib/polymorpheus/interface.rb:71-72 | an object of an undeclared type raises an error whose message names every declared association |
| `Interface.ValidationMessage` | lib/polymorpheus/interface.rb:87-88 | the message starts with "You must specify exactly one of the following: {" and ends with "}" |
| `Interface.ValidationMessageNamesEach` | lib/polymorpheus/interface.rb:87-88 | the validation message names every declared association |
| `Interface.Record.ValidateRelationship` | lib/polymorpheus/interface.rb:85-90 | exactly one `:base` error with the validation message is appended when the getter returns nil, and the errors are unchanged otherwise |
| `Interface.AssignedRecordIsValid` | lib/polymorpheus/interface.rb:75-90 | for an association list without repetitions and a matched name without a line break, after assigning an object with an id whose association reader finds an object, the getter is not nil, so validation adds no error |

## Left out

- Rails glue: `self.included`, `extract_options!`, the `belongs_to` calls, `const_set` of the `<API>_KEYS` constant (its value is `Keys`), `define_method`, `private` and `validates_polymorph`'s `validate` registration are framework wiring; the generated methods are ordinary members here.
- Class introspection: `class.name.underscore` and `superclass` are not modelled; the caller supplies both type tags, so a class without a superclass (Ruby would fail on `nil.name`) cannot arise.
- Association readers: Rails loads an association from the database by its foreign key; here the readers are a given map that the setter does not change, so the getter after an assignment is stated in terms of the reader.
- Missing columns and readers: a name absent from the maps reads as nil; in Ruby calling an undeclared attribute raises `NoMethodError`.
- Ids are integers; Rails' `present?` on other id types (blank strings) is not modelled.
- Exceptions: a raised error becomes the setter's return value; unwinding through the caller is not modelled.
- `RubyText.Downcase`: lowercases ASCII letters only, whereas Ruby's `downcase` also folds other Unicode letters.
- `RubyText.Inspect`: quotes each name but does not escape quotes, backslashes or control characters as Ruby's `inspect` does.
- The MySQL trigger and constraint generator (`add_polymorphic_triggers`, `add_polymorphic_constraints` and its name truncation) is exercised by spec/mysql2_adapter_spec.rb, but its implementation is not part of this model; spec/sql_logger.rb is test instrumentation.
