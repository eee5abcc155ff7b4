# Include resolution of the moderare validator, in Dafny

This project models the include-resolution engine of moderare's abstract
validator (`src/ValidatorAbstract.php`). Given one data node, a validator
does four things:

- it chooses the includes to attempt: its default includes, then each
  available include whose key the data array holds;
- it derives the name of each include's handler method (`include` followed
  by the include name in camel case);
- it judges the handler's return value: null means skip, a resource is
  accepted, and anything else raises an exception;
- it collects, under each include name, what the child scope embedded for
  that resource validates to. When nothing was collected it returns `false`.

The validator's state (`availableIncludes`, `defaultIncludes`, `currentScope`)
is a Dafny `class`. Its fluent setters are methods that update one field and
return the object itself.

The two loops are methods with loop invariants:
- `figureOutWhichIncludes` is `Validator.FigureOutWhichIncludes`;
- `processIncludedResources` is `Validator.ProcessIncludedResources`.

Each method is proved against a specification function
(`IncludeSelection.Candidates`, `Validator.Resolve`), and lemmas state what
those functions promise. The pure parts are Dafny functions:
- the handler-name derivation (module `HandlerName`);
- the judging of the handler's result (`CallIncludeMethod`);
- the single include step (`IncludeResourceIfAvailable`);
- the `item`/`collection` factories.

A PHP array with string keys, as the included data is built, is modelled in
`PhpArray` as a sequence of key/value pairs in insertion order.
`$a[$k] = $v` is `Put`: an existing key keeps its position and takes the new
value, and a new key is appended.

The collaborators the validator only calls are uninterpreted types and the
function fields of an `Env` value. These are the scope (`getIdentifier`,
`getManager`, `embedChildScope`, `validate`), the manager
(`getIncludeParams`) and the resource classes. A concrete validator's
handler methods are a `handlers` table keyed by method name lower-cased, as
PHP looks methods up regardless of ASCII case. Each handler is
a function from the include's data slice and its parameters to `Null`, a
resource, or `NotAResource`.

Modules: `Wrappers` (Option, Result), `PhpArray`, `HandlerName`,
`IncludeSelection`, `Moderare` (the validator).

Two behaviours of the code are easy to miss:
- A default include whose key is missing from the data is not a data-shape
  error. `$data[$includeName]` yields null with a notice (PHP 7) or warning (PHP 8), so the
  handler receives `None`.
- A name that is both a default include and an available include present in
  the data is attempted twice. Nothing removes the duplicate. The second
  result overwrites the first in place, so the key appears once, at the
  position where it was first written.

## Model

| member | source | states |
|---|---|---|
| Moderare.Validator.constructor | src/ValidatorAbstract.php:16-30 | a validator holds the include lists and methods its class declares, with its method table built from them, and starts with no current scope |
| Moderare.Validator.SetAvailableIncludes | src/ValidatorAbstract.php:189-194 | stores exactly its argument, which the getter then returns; the other two fields are unchanged; returns the same object |
| Moderare.Validator.SetDefaultIncludes | src/ValidatorAbstract.php:203-208 | stores exactly its argument, which the getter then returns; the other two fields are unchanged; returns the same object |
| Moderare.Validator.SetCurrentScope | src/ValidatorAbstract.php:217-222 | stores exactly its argument, which the getter then returns; the other two fields are unchanged; returns the same object |
| Moderare.Validator.FigureOutWhichIncludes | src/ValidatorAbstract.php:71-82 | the list is the default includes unchanged and in order, followed by the available includes present in the data; a later name is in it if and only if it is available and its key is in the data; the scope plays no part |
| IncludeSelection.FilterPresentSelects | src/ValidatorAbstract.php:74-79 | the filter picks, in their original order, exactly the positions of the available list whose name is a key of the data |
| IncludeSelection.FilterPresentMembership | src/ValidatorAbstract.php:74-79 | an available include is added if and only if `array_key_exists` holds for it |
| IncludeSelection.FilterPresentCount | src/ValidatorAbstract.php:74-79 | every occurrence of a present name is kept and no occurrence of an absent one |
| IncludeSelection.CandidatesCount | src/ValidatorAbstract.php:73-78 | a name is attempted once per default occurrence with no key check, plus once per available occurrence when its key is present; a name in both lists and in the data is attempted twice |
| HandlerName.MethodName | src/ValidatorAbstract.php:161 | the handler name starts with `include` and contains no underscore and no space |
| HandlerName.MethodNameOfWords | src/ValidatorAbstract.php:161 | a name of underscore-separated words maps to `include` followed by the words, each capitalised, run together (`user_profile` to `includeUserProfile`) |
| HandlerName.SuffixSplitsAtUnderscore | src/ValidatorAbstract.php:161 | an underscore is a word break: the part after `include` for `a_b` is the part for `a` followed by the part for `b` |
| HandlerName.SuffixOfWord | src/ValidatorAbstract.php:161 | a single word only has its first letter upper-cased; every other character is unchanged |
| HandlerName.UcWordsAt | src/ValidatorAbstract.php:161 | `ucwords` upper-cases exactly the first character and each character that follows a word break |
| HandlerName.UnderscoresToSpaces | src/ValidatorAbstract.php:161 | `str_replace('_', ' ', ...)` turns each underscore into a space and keeps every other character in place |
| HandlerName.RemoveSpacesSpec | src/ValidatorAbstract.php:161 | `str_replace(' ', '', ...)` leaves no space and keeps every other character with its count and in its order: the result is the subsequence of the input at the increasing positions that hold no space |
| HandlerName.UpperAscii | src/ValidatorAbstract.php:161 | only `a`..`z` are upper-cased; every other character is unchanged |
| HandlerName.LowerName | src/ValidatorAbstract.php:163 | the name PHP looks a method up by: the same length, each ASCII capital lower-cased and every other character unchanged |
| Moderare.MethodTable | src/ValidatorAbstract.php:163 | every declared method is found under its lower-cased name, and every entry of the table comes from a declared method |
| Moderare.Validator.DispatchIgnoresCase | src/ValidatorAbstract.php:161-163 | `call_user_func` finds a handler exactly when a method whose name equals the derived name up to ASCII case is declared, and calls that method with the data slice and the parameters |
| Moderare.Validator.CallIncludeMethod | src/ValidatorAbstract.php:153-180 | null from the handler gives skip; a resource is returned unchanged; any other value is an invalid-return error naming the method; a missing method is an error naming it |
| Moderare.Validator.IncludeResourceIfAvailable | src/ValidatorAbstract.php:125-138 | on skip the included data is returned as it was; on a resource the child scope's output is written under the include name, which keeps its position if already present and is otherwise appended, with every other key unchanged; on error the error is passed on |
| Moderare.Validator.ProcessIncludedResources | src/ValidatorAbstract.php:95-111 | the result fails if and only if some attempted include fails; it is `false` if and only if every attempted handler returned null; otherwise its keys are exactly the attempted includes whose handler yielded a resource, each once, in the order each first yielded |
| Moderare.ResolveSpec | src/ValidatorAbstract.php:95-111 | the same three cases for the specification of the call, and each yielding include's entry is its child scope's output |
| Moderare.FoldFailure | src/ValidatorAbstract.php:101-108 | the loop fails if and only if some include in it fails |
| Moderare.FoldFirstError | src/ValidatorAbstract.php:101-108 | a failing loop fails with the error of the first failing include, and every include before it succeeded |
| Moderare.ResolveFirstError | src/ValidatorAbstract.php:101-108 | the error of the whole call is that of the first attempted include that fails, whatever later includes would do |
| Moderare.NotAResourceAborts | src/ValidatorAbstract.php:169-177 | a handler returning neither null nor a resource aborts the whole call with an invalid-return error naming the handler |
| Moderare.FoldKeys | src/ValidatorAbstract.php:101-108 | the keys after the loop are the earlier keys followed by the yielding includes, duplicates dropped, so a repeated key keeps the position of its first insertion |
| Moderare.FoldValues | src/ValidatorAbstract.php:101-108 | a yielding include's entry is its child scope's output; every other entry is left as it was |
| Moderare.ProducedMembership | src/ValidatorAbstract.php:131-135 | an include gets an entry if and only if it is attempted and its handler yields a resource |
| Moderare.ResolveKeysDeclared | src/ValidatorAbstract.php:95-111 | every key of the result is a default include, or an available include present in the data, and its handler did not return null |
| Moderare.NothingToAttempt | src/ValidatorAbstract.php:110 | with no defaults and no available key in the data, the result is `false`, not an empty array |
| Moderare.SingleInclude | src/ValidatorAbstract.php:101-110 | one attempted include that yields gives included data holding just that include and its child output |
| Moderare.Validator.Item | src/ValidatorAbstract.php:233-236 | an item resource holding exactly the given data, transformer and resource key, unchecked |
| Moderare.Validator.Collection | src/ValidatorAbstract.php:247-250 | a collection resource holding exactly the given data, transformer and resource key, unchecked |
| PhpArray.Put | src/ValidatorAbstract.php:134 | `$a[$k] = $v` gives `$k` the new value, keeps its position if present and otherwise appends it, and leaves every other key's value unchanged |
| PhpArray.DedupSpec | src/ValidatorAbstract.php:134 | the key order PHP keeps holds each key once, ordered by where it first occurs |

## Left out

- The scope, the manager and the `Item`/`Collection`/`ResourceAbstract` classes are not part of this model. They appear only through uninterpreted types and the functions of `Env`. The parameter bag is passed to the handler untouched.
- `call_user_func` dispatch is a lookup in the `handlers` table by the derived name lower-cased, as PHP finds methods regardless of ASCII case. Visibility and `__call` are not modelled. A missing method is modelled as an error, `MissingHandler`. This is what PHP 8 does (a `TypeError`). Under PHP 7, `call_user_func` only warns and returns null, which this code would treat as a skip.
- Handlers and the child scope's `validate()` are pure functions here. Any side effects they have are not modelled. So a repeated include always gets the same outcome as its first attempt. The case "a repeat returns null and the earlier value is kept" is therefore stated for a single step (`IncludeResourceIfAvailable`), not for the whole loop.
- The exception message (`sprintf`, `__CLASS__`, `gettype`) is not modelled. The error records only its kind and the method name.
- The abstract `validate($data)` of concrete validators is not part of this model.
- `currentScope` is only stored and read back. Its role as a back-reference, and any concurrency, are not modelled.
- The getters are plain functions returning their field. Their round trip with the setters is stated in the setters' contracts.
- `ucwords` is modelled for ASCII only, with its default word breaks (space, tab, CR, LF, form feed, vertical tab). Locale-dependent and non-ASCII case mapping is not modelled.
- Include names and data keys are strings. PHP turns numeric-string keys into integers, and it can also apply `array_key_exists` to objects. Neither is modelled.
- `$data[$includeName]` on a missing key yields `None`. The notice (PHP 7) or warning (PHP 8) it raises is not modelled.
- The optional `$resourceKey = null` of `item()`/`collection()` is an explicit `Option` argument.
