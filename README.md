# micromodels: the field and binding engine in Dafny

micromodels is a small Python 2 library. A model class declares typed fields,
and an instance is built from a dictionary of decoded data. This project
models the engine that does that work:

- the field contract of `micromodels/fields.py`:
  - `populate` stores a raw value;
  - `to_python` converts it, falling back to the default;
  - `to_serial` exports a value;
  - `validate` runs the validator chain;
  - the field kinds `BaseField`, `CharField`, `IntegerField`, `BooleanField`,
    `ModelField`, `ModelCollectionField` and `FieldCollectionField`;
- the schema registry and the bound instance of `micromodels/models.py`:
  - `get_declared_fields` builds a class's schema;
  - a `Model` instance owns per-instance copies of the class fields, a table
    of added fields and its attribute table;
  - the write path `__setattr__` and the lazy read path `__getattr__`;
  - `set_data`, `add_field`, `to_dict` and `validate`.

Layout:

- `wrappers.dfy`: `Option`.
- `text.dfy` (`Text`): `strip`, `lower`, decimal `int()` parsing and integer
  rendering, with the parse of a rendered integer proved to give it back.
- `ordered_dict.dfy` (`OrderedDict`): `collections.OrderedDict` as a sequence
  of entries.
  - Assigning an existing key replaces its value in place; a new key is
    appended.
  - `OrderedDict(pairs)` keeps each key at its first position with its last
    value (`FromPairsSpec`).
- `declared.dfy` (`Declared`): the pure part of `get_declared_fields`.
  - A sort by creation counter.
  - The concatenation of the base schemas.
  - The laws of the resulting schema: order, uniqueness, which entry wins.
- `error_report.dfy` (`ErrorReport`): the error dictionary of
  `Model.validate`.
- `micromodels.dfy` (`Micromodels`): the value universe and the three
  classes.
  - `Field` and `Model` have mutable fields; `ModelClass` is a resolved
    class.
  - Field and model methods call one another (a nested field builds a model,
    which populates its fields), so they share one module.
  - The pure rules of the scalar kinds are functions. Each stateful method is
    proved against them.
- `field_laws.dfy` (`FieldLaws`) and `model_laws.dfy` (`ModelLaws`):
  properties that relate several calls.

Modelling choices:

- **Values.** Decoded data is a `Value`: `None`, bools, integers, strings,
  lists, string-keyed dicts, callables, model classes and model instances.
  - A callable taking no argument is `Producer(v)`; calling it gives `v`.
  - Calling a model class makes an empty instance.
  - A string is `unicode` text. A byte `str` is taken to be ASCII, so it
    behaves as the same `unicode` text.
- **Exceptions.** An exception that escapes is a `Fault` in a `Result`.
- **Recursion limit.** Python's recursion limit is a `depth` budget passed to
  every engine method. Each nested conversion, nested build and export spends
  one unit. An exhausted budget gives `RecursionLimit`, which is what the
  interpreter raises.
  - A `BooleanField` whose default, called twice, yields `None` recurses
    between `populate` and `to_python`. The model reports `RecursionLimit`
    for it at once.
- **`int` and `long`.** Python 2 integers beyond `sys.maxint` are `long`, not
  `int`. So `BooleanField` uses `> 0` only within the 64-bit range and
  truthiness outside it.
- **Validator hooks.** The `validate_<name>` methods are a map from method
  name to a check on the instance's attribute table. A name missing from the
  map is the `AttributeError` that `validate` skips.
- **Declaring a class.** `ModelClass.Declare` stands in for the metaclass.
  - A class body is a sequence of named members (fields or plain
    attributes).
  - A base is either a model class or another class.

Where the code and its prose disagree, the model follows the code:

- `__setattr__` stores `to_python()` and never falls back to `to_serial`,
  although the class docstring describes such a fallback
  (`micromodels/models.py:57-72` against `122-129`).
- `set_data` calls `get_default()` for a missing key, so a callable default is
  called there, not lazily (`micromodels/models.py:120`).
- A name that a subclass redeclares keeps the position of its first
  occurrence in the combined list (the base's) and takes the subclass's field.
  This is what `OrderedDict` does with duplicate keys.
- `__getattr__` looks a name up in the class fields before the added ones
  (`fields.get(key) or extra.get(key)`). `_fields`, which the write path uses,
  lets an added field win instead.

## Model

| member | source | states |
|---|---|---|
| Text.Strip | micromodels/fields.py:164 | `strip()` removes exactly the leading and trailing whitespace: the result is a slice of the input with only spaces outside it, and it neither starts nor ends with a space |
| Text.StripIdempotent | micromodels/fields.py:164 | stripping twice is stripping once |
| Text.LowerIdempotent | micromodels/fields.py:164 | lower-casing twice is lower-casing once |
| Text.LowerTrue | micromodels/fields.py:164 | `t.lower() == 'true'` holds exactly when `t` spells `true` in some mix of upper and lower case |
| Text.ParseInt | micromodels/fields.py:125 | `int(s)` succeeds exactly when the stripped string is one or more decimal digits, or a `+` or `-` followed by any whitespace and then one or more decimal digits (CPython 2.7 skips whitespace again after the sign); its value is then the digits' value with the sign applied |
| Text.AfterSignSkips | micromodels/fields.py:125 | what `int()` reads after a sign is the rest of the text without exactly the whitespace run that follows the sign |
| Text.SpaceAfterSign | micromodels/fields.py:125 | a sign, any whitespace, then digits parses to the digits' value with that sign, so `int('- 5') == -5` |
| Text.ParseIntText | micromodels/fields.py:114-125 | the decimal text of any integer parses back to that integer |
| OrderedDict.Get | micromodels/models.py:136 | `d.get(k)` is absent exactly when `k` is not a key, and otherwise is the value of the entry of `k` |
| OrderedDict.Put | micromodels/models.py:154 | `d[k] = v` keeps the key order when `k` is present, and appends `k` otherwise |
| OrderedDict.PutGet | micromodels/models.py:154 | after `d[k] = v`, `k` reads `v` and every other key reads what it read before |
| OrderedDict.PutLast | micromodels/models.py:154 | assigning a key of a dict with unique keys keeps them unique, and the assigned value is the key's last entry |
| OrderedDict.Dedup | micromodels/models.py:24 | the first occurrences of a list: duplicate-free, containing exactly the list's elements |
| OrderedDict.DedupOrder | micromodels/models.py:24 | the first occurrences stay in the order in which they first occur |
| OrderedDict.FromPairsSpec | micromodels/models.py:24 | `OrderedDict(pairs)` has unique keys, listed by first occurrence; each key holds the value of its last pair, and no other key is present |
| OrderedDict.UpdateKeys | micromodels/models.py:145 | `OrderedDict(d, **e)` lists the keys of `d`, then the keys of `e` that are new, each once |
| OrderedDict.UpdateGet | micromodels/models.py:145 | after the update a key holds its last value in `e`, or its value in `d` when `e` lacks it |
| OrderedDict.LastValueUnique | micromodels/models.py:136 | in a dict with unique keys, `get` finds the last (and only) entry of a key |
| OrderedDict.GetEntry | micromodels/models.py:115 | in a dict with unique keys, every entry is what `get` finds under its key |
| Declared.Insert | micromodels/models.py:18 | inserting into a sorted list keeps it sorted, and adds exactly the one entry |
| Declared.SortBy | micromodels/models.py:18 | `fields.sort(key=creation_counter)` returns a list sorted by counter that is a permutation of its input |
| Declared.SchemaOrder | micromodels/models.py:20-24 | the schema's names are unique: the names of base 0, then base 1 and so on, then the own fields, each at its first position |
| Declared.SchemaOverride | micromodels/models.py:20-24 | a name the class declares itself maps to the class's own field, whatever the bases declare |
| Declared.SchemaOwnWins | micromodels/models.py:20-24 | a name among the own entries maps to its last own entry, whatever the bases declare |
| Declared.SchemaInherited | micromodels/models.py:20-24 | a name only the bases declare maps to the field of the last base that declares it |
| ErrorReport.Report | micromodels/models.py:205 | `error_dict or None` is `None` exactly when the dictionary is empty |
| ErrorReport.CollectKeys | micromodels/models.py:191-204 | a name is in the error dictionary exactly when one of its visits recorded a message |
| ErrorReport.CollectAt | micromodels/models.py:191-204 | with unique names, a field has an entry iff it or its hook raised, and the entry is its own message, then its hook's message, in that order |
| ErrorReport.ReportNone | micromodels/models.py:205 | `validate()` returns `None` exactly when no field and no hook raised a message |
| Micromodels.BoolRule | micromodels/fields.py:158-167 | `BooleanField._to_python`: a string is true iff `strip().lower() == 'true'`; an `int` is true iff positive; anything else (a `long` included) by truthiness |
| Micromodels.Populated | micromodels/fields.py:150-156 | what populate leaves in `data` for a scalar kind: the called raw value for the non-Boolean kinds; a bool for `BooleanField`; a failure only on the endless recursion a `None` value with a `None`-yielding default causes |
| Micromodels.AssignEachSpec | micromodels/fields.py:442-446 | assigning each item through one scalar field succeeds iff every item's assignment succeeds, and then keeps the length and gives item `j`'s value at position `j` |
| Micromodels.SequenceOk | micromodels/fields.py:446 | a list comprehension whose items may raise succeeds exactly when no item raises |
| Micromodels.SequenceValues | micromodels/fields.py:446 | a successful comprehension has one value per item, each at its item's position |
| Micromodels.SequenceStops | micromodels/fields.py:446 | the comprehension raises the exception of the first item that raises |
| Micromodels.ChainOutcome | micromodels/fields.py:98-103 | the chain ends with a value or a validation message, never another fault |
| Micromodels.RunValidators | micromodels/fields.py:100-102 | the validator loop computes the chain: each validator sees the current value, a `None` return keeps it, any other return replaces it, and the first `ValidationError` stops the loop |
| Micromodels.Iterate | micromodels/fields.py:358 | `iter(v)`: a list gives its items and a string its characters, in order; a dict gives each key exactly once; any other value raises `TypeError` |
| Micromodels.CallIfCallable | micromodels/fields.py:52-53 | `callable(v) and v()`: a producer gives its result; a model class gives a fresh empty instance of it; any other value is returned unchanged |
| Micromodels.Counter.constructor | micromodels/fields.py:27 | the creation counter starts at zero |
| Micromodels.Field.constructor | micromodels/fields.py:30-48 | the field takes the current creation counter and advances it by one; `required_validator` comes first when required, then the user's validators; the kind's default applies when none is given (the wrapped class for `ModelField`, `list` for the collection fields) |
| Micromodels.Field.Copy | micromodels/models.py:84 | `copy(field)` is a new field with the same configuration and the same state |
| Micromodels.Field.Populate | micromodels/fields.py:50-54 | populate stores `raw()` for a callable and `raw` otherwise, with no conversion, for every non-Boolean kind; a `BooleanField` (`fields.py:153-156`) then stores a bool; for scalar kinds the stored value is `Populated` |
| Micromodels.Field.GetDefault | micromodels/fields.py:56-60 | the default, called when it is callable (a model class gives a fresh instance) |
| Micromodels.Field.ToPython | micromodels/fields.py:62-73 | no data or `None` data with a `None` default gives `None`; for scalar kinds the result is the reference `ScalarToPython` and the data left behind is `ScalarDataAfter`; an instance of a `ModelField`'s class is passed through; a `ModelField` result is an instance or `None`, and a `ModelCollectionField` result is a list of instances |
| Micromodels.Field.ConvertData | micromodels/fields.py:75-80 | the kind's `_to_python` on the populated data: the scalar rule for scalar kinds, with `data` unchanged; the composite kinds below otherwise |
| Micromodels.Field.ConvertModel | micromodels/fields.py:303-313 | an instance of the wrapped class is used as is; other data builds a fresh instance with `from_dict(data or {})`; for a class of scalar fields and data holding no model class, that instance holds exactly what `from_dict` assigns from `data or {}` (`Loaded`) and no attribute besides the class fields and the related name; with a related name, the result has an attribute of that name, and it is the field's related object when that name is not a field of the wrapped class |
| Micromodels.Field.ConvertModels | micromodels/fields.py:356-367 | the result is a list of instances of the wrapped class, as long as the data list, where each item is kept when it is an instance and built fresh otherwise; with a related name every item has an attribute of that name, and for a class of scalar fields and a name that is no item's field, every item holds the field's related object under it; data that does not iterate raises `TypeError` |
| Micromodels.Field.ConvertAll | micromodels/fields.py:357-367 | the loop over the items: one instance per item, in order, each kept or built fresh, each with the related name bound; for a class of scalar fields and a name that is no item's field, every item, the early ones included, still holds the related object at the end |
| Micromodels.Field.ConvertNext | micromodels/fields.py:359-364 | one round of that loop: the new item is kept or built fresh with the related name bound, and when the earlier items all held the related object under a name that is not a field, they and the new item all hold it afterwards |
| Micromodels.Field.ConvertItem | micromodels/fields.py:359-364 | one item: an instance is kept and any other item builds a fresh instance with `from_dict(item)`, which for a class of scalar fields holds exactly `Loaded` on the item and nothing besides the class fields and the related name; the related name is then bound, to the related object when it is not a field name, and then the related object and every other instance are unchanged |
| Micromodels.Field.ConvertEach | micromodels/fields.py:442-446 | `None` or empty data gives `[]`; a list gives a list of the same length; for a scalar wrapped field the result is exactly the item-by-item assignment `AssignEach` through the one shared field |
| Micromodels.Field.ToSerial | micromodels/fields.py:82-96 | `to_serial(None)` is `None`; the scalar kinds export unchanged; a `ModelField` exports `to_dict(serial=True)` (fields.py:315-316), which for an instance of scalar fields is exactly its readable `_fields` attributes, every attribute it held before keeping its value; a model class raises `TypeError` and any other non-instance `AttributeError`; a collection exports a list of the same length, item by item (fields.py:369-370, 448-449), and a `FieldCollectionField` of a scalar field exports the list unchanged |
| Micromodels.Field.SerialModel | micromodels/fields.py:315-316 | only a model instance has a bound `to_dict`: a model class raises `TypeError`, anything else `AttributeError`; an instance of scalar fields exports exactly its readable `_fields` attributes, and every attribute it held before keeps its value |
| Micromodels.Field.Validate | micromodels/fields.py:98-103 | for scalar kinds: a conversion failure escapes, and otherwise the result is the validator chain run on `to_python()` |
| Micromodels.ModelClass.constructor | micromodels/models.py:31-34 | a class records its name, bases, schema, other attributes and hooks, and the model classes it derives from |
| Micromodels.ModelClass.Declare | micromodels/models.py:27-34 | the class's schema is `Schema(base schemas, own fields sorted by counter)`, and the rest of the body stays class attributes |
| Micromodels.GetDeclaredFields | micromodels/models.py:7-24 | the schema equation above; every body field leaves the class attributes; a field with a verbose name keeps it, and an unnamed field gets its attribute name |
| Micromodels.SplitBody | micromodels/models.py:13-17 | the body's fields in body order and the remaining attributes; verbose names as above |
| Micromodels.PrependBases | micromodels/models.py:20-22 | prepending the model bases' schemas from the last base to the first gives base 0's schema, then base 1's, and so on, then the own fields |
| Micromodels.Model.constructor | micromodels/models.py:80-85 | an instance starts with no added fields and no attributes, and holds one fresh, distinct copy of each class field under the same name and in the same order |
| Micromodels.Model.FromDict | micromodels/models.py:90-99 | a fresh instance of the class with every class field's name bound; data that is not a container raises `TypeError` when the class has fields; for a class of scalar fields, each field holds exactly what the key rule of `set_data` assigns it (`Loaded`), no other attribute is set, and no model or field that existed before changes |
| Micromodels.Model.FromKwargs | micromodels/models.py:102-110 | a fresh instance with every class field's name bound; for a class of scalar fields, each holds exactly what `set_data` assigns from the keyword dict, no other attribute is set, and no model or field that existed before changes |
| Micromodels.Model.Create | micromodels/models.py:80-87 | `cls(**values)`: with no values, an empty instance; otherwise every class field's name is bound, and for a class of scalar fields and values holding no model class each field holds exactly what `set_data(values)` assigns (`Loaded`), no other attribute is set, and no model or field that existed before changes |
| Micromodels.Model.SetData | micromodels/models.py:112-120 | on success every class field's name is bound; data that is not a container raises `TypeError` when the class has fields; for scalar fields, each field holds `Load`: `data[source or name]` when the key is present and `get_default()` otherwise, assigned through `_fields`; a failure is the first failing field's `Load`; other attributes are untouched, and so are every other model and every field that is not one of this instance's own |
| Micromodels.Model.LoadField | micromodels/models.py:115-120 | one round of `set_data`: for scalar fields it succeeds exactly when `Load` does, stores exactly its value under the name, fails with its fault, and changes no other model and no field outside this instance's own |
| Micromodels.Fetch | micromodels/models.py:116-120 | `data[key] if key in data else field.get_default()`: the value `Incoming` selects (the default only when the key is absent); data that is not a container raises `TypeError` |
| Micromodels.LoadedStep | micromodels/models.py:115-120 | storing the load of one field keeps the loads already stored under the other, distinct, field names |
| Micromodels.LoadedOther | micromodels/fields.py:363-364 | storing a value under a name that is no class field (the related name) keeps every load `from_dict` stored |
| Micromodels.RelatedKept | micromodels/fields.py:359-364 | items that held the related object before one item was bound still hold it, and the bound item after them holds it too |
| Micromodels.FieldsOwned | micromodels/models.py:143-145 | the field `_fields` resolves a name to is one of the instance's own class-field copies or added fields |
| Micromodels.Model.SetAttr | micromodels/models.py:122-129 | a name not in `_fields` stores the value unconverted and changes no field; a scalar field stores exactly the assignment `Assign` (populate, then `to_python`), fails exactly when it fails, points the field's related object back at this instance, and changes no other field or model; a `ModelField` stores an instance of its class or `None`, and an instance passed in is stored as is |
| Micromodels.Model.Bind | micromodels/models.py:124-127 | the field branch of the write path: for a scalar field the value is exactly `Assign` (populate, then `to_python`) and the field's related object becomes this instance; for a `ModelField` it is an instance of its class or `None`, and an instance passed in comes back as is |
| Micromodels.Model.GetAttr | micromodels/models.py:131-141 | a stored value is returned and nothing is stored; an unknown name raises `AttributeError`; a field name without a stored value gives, for scalar kinds, the field's `to_python()`; a successful read of a name without a stored value stores what `__setattr__` stores for the value read, through the `_fields` entry of the name (`FieldStored`) |
| Micromodels.Model.HasAttr | micromodels/models.py:166 | Python 2 `hasattr`: true for a stored value; false for an unknown name; when true, the name now has a stored value |
| Micromodels.Model.AddField | micromodels/models.py:147-155 | the field is registered in `_extra` under the key (unique keys kept), `_fields` then resolves the key to it, and the value is assigned through it exactly as `__setattr__` assigns it (`FieldStored`) |
| Micromodels.Model.ToDict | micromodels/models.py:157-169 | without `serial`, it never fails; the keys are `_fields` names with a stored value, and every `_fields` name stored before the call is among them; on an instance of scalar fields the result is exactly the readable `_fields` attributes with their values, every attribute stored before keeps its value, and every `_fields` name stored before is exported with the value it had then |
| Micromodels.Model.Entries | micromodels/models.py:164-169 | the generator over the entries of `_fields`, in order: the same keys, and for scalar fields exactly the readable attributes of those names, with every attribute stored before keeping its value |
| Micromodels.Model.Gather | micromodels/models.py:165-168 | one step of the generator: an entry is added for the name when it can be read, with its value on scalar fields, and then no stored attribute changes |
| Micromodels.Model.Export | micromodels/models.py:164-169 | one entry of `to_dict`: skipped only when `hasattr` fails, which never happens to a name already stored; without `serial` (or for a scalar field) a name already stored is exported with exactly the value it held, and nothing is stored |
| Micromodels.Model.CheckField | micromodels/models.py:193-204 | one round of `validate()`: the hook message is exactly the `ValidationError` message of the `validate_<name>` hook run on the attributes, and none without a hook; a scalar field records exactly the message its validator chain raises on `to_python()`, and a conversion failure escapes |
| Micromodels.Model.Validate | micromodels/models.py:178-205 | the result is `error_dict or None` of the messages collected over the `_fields` names in order, with no hook message for a name without a hook; on fields that are all scalar it succeeds exactly when every conversion does, each own message is that field's chain message on what it held, each hook message is the hook run on the attributes, and no attribute changes |
| Micromodels.Model.Visit | micromodels/models.py:191-204 | one iteration of the loop: the dictionary grows by the field's own message, then its hook's; on scalar fields nothing any field reads changes |
| Micromodels.ToPythonRepeatable | micromodels/fields.py:62-73 | converting again the data `to_python()` leaves behind gives the same value |
| FieldLaws.ToPythonTwice | micromodels/fields.py:62-73 | two successive `to_python()` calls on a scalar field give the same value |
| FieldLaws.AssignIdempotent | micromodels/models.py:122-129 | assigning a scalar field its own stored value stores the same value again |
| FieldLaws.ConvertFixed | micromodels/fields.py:109-167 | a converted scalar value converts to itself, and populating it changes nothing |
| FieldLaws.IntegerReadsCharText | micromodels/fields.py:109-125 | the text a `CharField` makes of an integer reads back through an `IntegerField` as that integer |
| FieldLaws.IntOfText | micromodels/fields.py:125 | `int()` of the decimal text of an integer is that integer |
| FieldLaws.StoredAsRead | micromodels/fields.py:150-156 | storing a scalar field's converted value through `__setattr__` keeps it, except that a `BooleanField` value `None` is stored as `False` |
| FieldLaws.ReadTwice | micromodels/models.py:131-141 | two reads of an attribute of an instance of scalar fields: the second gives what the first gave, except that a `BooleanField` read as `None` before anything was stored reads `False` the second time |
| FieldLaws.BooleanOfInt | micromodels/fields.py:165-166 | a `BooleanField` given an `int` holds `True` iff the integer is positive |
| FieldLaws.ChainAppend | micromodels/fields.py:100-102 | running `a + b` is running `a` and then `b` on its final value; a message from `a` stops it |
| FieldLaws.ChainKeeps | micromodels/fields.py:100-102 | validators that all return `None` leave the value unchanged |
| FieldLaws.ChainReplaces | micromodels/fields.py:101-102 | a validator's non-`None` result replaces the value for the rest of the chain |
| FieldLaws.RequiredFirst | micromodels/fields.py:12-14 | with `required_validator` first, `None` fails with "This field is required." before any user validator runs, and any other value goes to the user validators unchanged |
| FieldLaws.RequiredField | micromodels/fields.py:39-44 | a required field's chain fails on `None` with that message and otherwise is the user chain |
| FieldLaws.DeclareInOrder | micromodels/fields.py:46-48 | fields built one after another get consecutive, strictly increasing counters |
| ModelLaws.FieldsLookup | micromodels/models.py:143-145 | a name of `_fields` resolves to the added field when one was added under it, and to the class field otherwise |
| ModelLaws.FieldNames | micromodels/models.py:143-145 | `_fields` lists the class field names in order, then the new added names, each once |
| ModelLaws.Isolation | micromodels/models.py:122-129 | two instances of one class share no class-field object with each other or with the class; on a class of scalar fields, assigning any attribute of one through `__setattr__` leaves the other instance's copies equal to the class fields, its attributes empty, and the class fields' data unchanged |
| ModelLaws.Instances | micromodels/models.py:80-85 | two fresh instances hold disjoint sets of copies of the class fields |

## Left out

- `FloatField`, `DecimalField`, `DateTimeField`, `DateField`, `TimeField`, `UUIDField` and `JSONField`: floating point and foreign library calls.
- `Model.to_json` and `from_dict(is_json=True)`: these only call a JSON library.
- `URIField`, `FileField` and `help_text`: metadata with no behaviour in the engine.
- `micromodels/__init__.py` and `setup.py`: re-exports and packaging.
- Metaclass mechanics: `ModelMeta` becomes the explicit `ModelClass.Declare`, and `isinstance` goes through the recorded model ancestors.
- Attribute inheritance through the MRO: a `Model` reads its own attributes and then its class's own attributes, not those of base classes.
- The class body is a sequence of members, so the iteration order of a Python 2 class `dict` is not modelled. Only the counter fixes the order of own fields, as in the source.
- Reflection: a `validate_<name>` hook is a function of the instance's attribute table. It cannot change state, and it raises only `ValidationError` (or is missing).
- Validators raise only `ValidationError`. Any other exception a user validator might raise is not modelled.
- `unicode()` of containers, callables and objects is a fixed text. Only `None`, bools, integers and `unicode` strings (or ASCII byte strings) render as Python does.
- Micromodels.ToText: a `Str` stands for `unicode` text or an ASCII `str`. Python 2's byte `str` and `unicode` are not told apart, so the `UnicodeDecodeError` that `unicode(self.data)` (`micromodels/fields.py:114`) raises on a byte string holding non-ASCII bytes is not modelled. Such strings can reach a `CharField` through `from_kwargs`, `cls(**values)` or `from_dict` on a native dict.
- `strip`, `lower` and `int()` cover ASCII whitespace, letters and digits. The further characters that `unicode.strip()` removes (\x1c-\x1f, \x85, \xa0 and the other Unicode spaces) and the non-ASCII digits `int()` accepts on `unicode` data are not modelled.
- The recursion limit is a budget that each nested conversion, build or export spends by one unit. CPython's exact frame count is not modelled, so the point where `RecursionLimit` arises is approximate.
- Frames are coarse. An engine method may change the attributes, data and related object of any model or field, and promises that no attribute is ever removed. Only for instances of scalar fields do `SetData`, `LoadField`, `FromDict`, `ConvertItem`, `SetAttr` and the export methods say which other objects stay unchanged.
- The order of a dict's keys when it is iterated is left unspecified, as in Python 2.
- Micromodels.Model.ToDict: states the values, and that stored values are kept, only for an instance of scalar fields. With a nested field, a later lazy read may reassign a name already exported (through a related-name back-reference to this instance), so "as stored" holds only at the moment of reading.
- Micromodels.Model.SetData: states the value of each field only for a class of scalar fields and data with no model class among its values (populating a class would build an instance). With nested fields a later field may reassign an earlier name, for the same reason.
- Micromodels.Model.FromDict: the same limit as SetData.
- Micromodels.Model.Validate: ties the recorded messages to each field's own chain only when every field of `_fields` is scalar. With a nested field each call may change the state that the next one reads.
- Micromodels.Field.ToPython: the exact result is stated only for the scalar kinds and for instances passed through `ModelField`. For composite kinds it states shapes (an instance, a list of instances).
- Micromodels.Field.Validate: the exact result is stated only for the scalar kinds.
- Micromodels.Model.GetAttr: the computed value is stated only for scalar fields whose default does not build an instance.
- Declared.SortBy: states sorted and a permutation, not stability. Fields built from one counter have distinct counters, so ties arise only when one field object appears twice in a body.
- Micromodels.GetDeclaredFields: the verbose-name default is stated only for a field that has a non-empty name and appears for the first time in the body.
- Micromodels.Field.ConvertModels: lengths and pass-through are stated for list data. For string and dict data only the shape (a list of instances) is stated.
- Micromodels.Model.Fields: lists the added names in the order they were added. `OrderedDict(self._clsfields, **self._extra)` passes `_extra` as keyword arguments, which Python 2 packs into a plain dict, so the new names arrive in hash order. The model fixes one order where Python 2 leaves it to the hash of the names.
- ModelLaws.FieldNames: the same order of added names as Micromodels.Model.Fields.
- ModelLaws.Isolation: a `FieldCollectionField`'s inner field is not copied. `copy(field)` is shallow, so every instance and the class share that one inner field object, as in the source. The lemma speaks of the class-field objects themselves.
- Micromodels.Field.ToSerial: a `ModelCollectionField`'s items are stated to export as dicts, not which dicts; a `FieldCollectionField` of a non-scalar field has only its length stated. Each item's export may change the instances the other items read.
- Micromodels.Field.ConvertModels: states each item's related value only for a class of scalar fields and a related name that is no item's field. When the name is a field the assignment goes through that field's conversion, and nested fields may rebind earlier items.
- Micromodels.Model.Bind: states the back-reference `_related_obj = self` for scalar fields only. For a `ModelField` the nested conversion may reach other field objects, and the frames do not say which.
- Micromodels.Model.SetAttr: the same limit on the back-reference as Bind.
- FieldLaws.ReadTwice: states nothing for a name that is both a class field and an added field. The read goes through the class field and the store through the added one. It also states nothing when the first read gives a callable, which the store would call.
- Micromodels.Field.ConvertModel: the instance built is tied to `from_dict` (`Loaded`) only for a class of scalar fields and data with no model class, for the reason given under SetData.
