/**
 * The include-resolution engine of the abstract validator: which includes
 * to attempt for one data node, which handler method serves each, how the
 * handler's return value is judged, and how the child scopes' output is
 * collected into the node's included data.
 *
 * The scope, the manager and the resources' own walk are collaborators the
 * validator only calls; they stand here as uninterpreted types and the
 * functions of an `Env`.
 */
module Moderare {
  import opened Wrappers
  import opened PhpArray
  import opened IncludeSelection
  import HandlerName

  /** A scope: a position in the resolution tree. */
  type Scope
  /** The manager a scope answers to. */
  type Manager
  /** The parameters the manager holds for one include, passed to the handler untouched. */
  type ParamBag
  /** What a child scope's `validate()` produces. */
  type Output
  /** A value held in a data array. */
  type Value
  /** The validator or callable a resource is shaped by. */
  type Transformer

  /** The two resource containers a handler may return. */
  datatype Resource =
    | ItemResource(data: Value, transformer: Transformer, resourceKey: Option<string>)
    | CollectionResource(data: Value, transformer: Transformer, resourceKey: Option<string>)

  /** What a handler method returns: null, a resource, or any other value. */
  datatype HandlerResult = Null | Returned(resource: Resource) | NotAResource

  /** A handler method, called with the include's slice of the data and its parameters. */
  type Handler = (Option<Value>, ParamBag) -> HandlerResult

  /** The collaborators' operations the validator uses. */
  datatype Env = Env(
    identifier: (Scope, string) -> string,                // Scope::getIdentifier
    manager: Scope -> Manager,                            // Scope::getManager
    includeParams: (Manager, string) -> ParamBag,         // Manager::getIncludeParams
    embedChildScope: (Scope, string, Resource) -> Scope,  // Scope::embedChildScope
    validate: Scope -> Output)                            // Scope::validate

  /** The exceptions an include raises. */
  datatype Error =
    | MissingHandler(methodName: string)      // no method of the derived name
    | InvalidReturnValue(methodName: string)  // the handler returned neither null nor a resource

  /** The result of processing includes: `false` when nothing was included, else the included data. */
  datatype IncludedData = NoIncludes | Included(entries: Assoc<Output>)

  /** `$data[$includeName]`: null (with a notice in PHP 7, a warning in PHP 8) when the key is missing. */
  function DataSlice(data: map<string, Value>, includeName: string): Option<Value>
  {
    if includeName in data then Some(data[includeName]) else None
  }

  /** The parameters for an include: the manager's, looked up by the scope's identifier for it. */
  function IncludeParams(env: Env, scope: Scope, includeName: string): ParamBag
  {
    env.includeParams(env.manager(scope), env.identifier(scope, includeName))
  }

  /** What the child scope embedded for an include's resource validates to. */
  function ChildOutput(env: Env, scope: Scope, includeName: string, resource: Resource): Output
  {
    env.validate(env.embedChildScope(scope, includeName, resource))
  }

  /** No two declared method names differ only in ASCII case: PHP refuses to declare such a pair. */
  ghost predicate DistinctIgnoringCase(methods: map<string, Handler>)
  {
    forall a, b :: a in methods && b in methods && HandlerName.LowerName(a) == HandlerName.LowerName(b) ==> a == b
  }

  /**
   * The method table PHP builds from a class's declared methods: each is
   * found under its name lower-cased, so a lookup ignores ASCII case.
   */
  function MethodTable(methods: map<string, Handler>): (t: map<string, Handler>)
    requires DistinctIgnoringCase(methods)
    ensures forall m :: m in methods ==> HandlerName.LowerName(m) in t && t[HandlerName.LowerName(m)] == methods[m]
    ensures forall k :: k in t ==> exists m :: m in methods && HandlerName.LowerName(m) == k
  {
    map m | m in methods :: HandlerName.LowerName(m) := methods[m]
  }

  class Validator {
    /** Includes attached when the data array holds their key. */
    var availableIncludes: seq<string>
    /** Includes always attempted. */
    var defaultIncludes: seq<string>
    /** The scope currently driving this validator; null until set. */
    var currentScope: Option<Scope>
    /** The handler methods a concrete validator declares, by their declared names. */
    const methods: map<string, Handler>
    /** The same methods as PHP looks them up: by lower-cased name. */
    const handlers: map<string, Handler>

    /** The lookup table is the method table of the declared methods. */
    ghost predicate Valid()
    {
      DistinctIgnoringCase(methods) && handlers == MethodTable(methods)
    }

    /** A concrete validator: its handler methods and its declared include lists. */
    constructor (methods: map<string, Handler>, availableIncludes: seq<string>, defaultIncludes: seq<string>)
      requires DistinctIgnoringCase(methods)
      ensures this.methods == methods && Valid()
      ensures this.availableIncludes == availableIncludes && this.defaultIncludes == defaultIncludes
      ensures currentScope == None
    {
      this.methods := methods;
      this.handlers := MethodTable(methods);
      this.availableIncludes := availableIncludes;
      this.defaultIncludes := defaultIncludes;
      this.currentScope := None;
    }

    function GetAvailableIncludes(): seq<string>
      reads this
    {
      availableIncludes
    }

    function GetDefaultIncludes(): seq<string>
      reads this
    {
      defaultIncludes
    }

    function GetCurrentScope(): Option<Scope>
      reads this
    {
      currentScope
    }

    /** Stores the list of available includes and returns this validator. */
    method SetAvailableIncludes(availableIncludes: seq<string>) returns (self: Validator)
      modifies this`availableIncludes
      ensures self == this
      ensures GetAvailableIncludes() == availableIncludes
      ensures defaultIncludes == old(defaultIncludes) && currentScope == old(currentScope)
    {
      this.availableIncludes := availableIncludes;
      self := this;
    }

    /** Stores the list of default includes and returns this validator. */
    method SetDefaultIncludes(defaultIncludes: seq<string>) returns (self: Validator)
      modifies this`defaultIncludes
      ensures self == this
      ensures GetDefaultIncludes() == defaultIncludes
      ensures availableIncludes == old(availableIncludes) && currentScope == old(currentScope)
    {
      this.defaultIncludes := defaultIncludes;
      self := this;
    }

    /** Stores the current scope and returns this validator. */
    method SetCurrentScope(currentScope: Option<Scope>) returns (self: Validator)
      modifies this`currentScope
      ensures self == this
      ensures GetCurrentScope() == currentScope
      ensures availableIncludes == old(availableIncludes) && defaultIncludes == old(defaultIncludes)
    {
      this.currentScope := currentScope;
      self := this;
    }

    /**
     * The includes to attempt: the default includes as they are, then each
     * available include whose key the data holds. The scope plays no part.
     */
    method FigureOutWhichIncludes(scope: Scope, data: map<string, Value>) returns (includes: seq<string>)
      ensures includes == Candidates(defaultIncludes, availableIncludes, data.Keys)
      ensures includes[..|defaultIncludes|] == defaultIncludes
      ensures forall x :: x in includes[|defaultIncludes|..] <==> x in availableIncludes && x in data
    {
      includes := GetDefaultIncludes();
      var available := GetAvailableIncludes();
      for i := 0 to |available|
        invariant includes == defaultIncludes + FilterPresent(available[..i], data.Keys)
      {
        assert available[..i + 1][..i] == available[..i];
        if available[i] in data {
          includes := includes + [available[i]];
        }
      }
      assert available[..|available|] == available;
      assert includes[|defaultIncludes|..] == FilterPresent(available, data.Keys);
      forall x {
        FilterPresentMembership(available, data.Keys, x);
      }
    }

    /**
     * What the handler for an include returns, or None when no method has
     * the derived name; like PHP's method lookup, it ignores ASCII case.
     */
    function HandlerOutput(env: Env, scope: Scope, includeName: string, data: map<string, Value>): Option<HandlerResult>
    {
      var key := HandlerName.LowerName(HandlerName.MethodName(includeName));
      if key in handlers
      then Some(handlers[key](DataSlice(data, includeName), IncludeParams(env, scope, includeName)))
      else None
    }

    /**
     * `call_user_func` calls the declared method whose name equals the
     * derived one up to ASCII case, and there is a handler exactly when
     * such a method is declared: the include `userprofile` is served by a
     * method declared as `includeUserProfile`.
     */
    lemma DispatchIgnoresCase(env: Env, scope: Scope, includeName: string, data: map<string, Value>)
      requires Valid()
      ensures var name := HandlerName.LowerName(HandlerName.MethodName(includeName));
        && (HandlerOutput(env, scope, includeName, data).Some? <==>
              exists m :: m in methods && HandlerName.LowerName(m) == name)
        && (forall m :: m in methods && HandlerName.LowerName(m) == name ==>
              HandlerOutput(env, scope, includeName, data) ==
                Some(methods[m](DataSlice(data, includeName), IncludeParams(env, scope, includeName))))
    {
    }

    /**
     * Calls the handler of an include and judges its return value: null
     * means skip, a resource is passed on unchanged, and anything else, or
     * a missing method, is an error naming the method.
     */
    function CallIncludeMethod(env: Env, scope: Scope, includeName: string, data: map<string, Value>)
      : (r: Result<Option<Resource>, Error>)
      ensures var out, name := HandlerOutput(env, scope, includeName, data), HandlerName.MethodName(includeName);
        && (r == Success(None) <==> out == Some(Null))
        && (r.Success? && r.value.Some? <==> out.Some? && out.value.Returned?)
        && (r.Success? && r.value.Some? ==> r.value.value == out.value.resource)
        && (r == Failure(MissingHandler(name)) <==> out == None)
        && (r == Failure(InvalidReturnValue(name)) <==> out == Some(NotAResource))
    {
      var methodName := HandlerName.MethodName(includeName);
      match HandlerOutput(env, scope, includeName, data)
      case None => Failure(MissingHandler(methodName))
      case Some(Null) => Success(None)
      case Some(Returned(resource)) => Success(Some(resource))
      case Some(NotAResource) => Failure(InvalidReturnValue(methodName))
    }

    /** Whether the include's handler yields a resource. */
    predicate Yields(env: Env, scope: Scope, data: map<string, Value>, includeName: string)
    {
      var c := CallIncludeMethod(env, scope, includeName, data);
      c.Success? && c.value.Some?
    }

    /** What a yielding include contributes: its child scope's output. */
    function YieldedOutput(env: Env, scope: Scope, data: map<string, Value>, includeName: string): Output
      requires Yields(env, scope, data, includeName)
    {
      ChildOutput(env, scope, includeName, CallIncludeMethod(env, scope, includeName, data).value.value)
    }

    /**
     * One include: when its handler yields a resource, the child scope's
     * output is written under the include name (an earlier entry of that
     * name is overwritten in place); on null the data is left as it is.
     */
    function IncludeResourceIfAvailable(env: Env, scope: Scope, data: map<string, Value>,
                                        includedData: Assoc<Output>, includeName: string)
      : (r: Result<Assoc<Output>, Error>)
      ensures var c := CallIncludeMethod(env, scope, includeName, data);
        && (r.Failure? <==> c.Failure?)
        && (r.Failure? ==> r.error == c.error)
        && (c == Success(None) ==> r == Success(includedData))
        && (c.Success? && c.value.Some? ==>
              && Keys(r.value) == KeysAfterPut(Keys(includedData), includeName)
              && Lookup(r.value, includeName) == Some(ChildOutput(env, scope, includeName, c.value.value))
              && forall k :: k != includeName ==> Lookup(r.value, k) == Lookup(includedData, k))
    {
      match CallIncludeMethod(env, scope, includeName, data)
      case Failure(e) => Failure(e)
      case Success(None) => Success(includedData)
      case Success(Some(resource)) =>
        Success(Put(includedData, includeName, ChildOutput(env, scope, includeName, resource)))
    }

    /** The loop over the includes, from a given included data; the first error aborts it. */
    function Fold(env: Env, scope: Scope, data: map<string, Value>, includedData: Assoc<Output>, includes: seq<string>)
      : Result<Assoc<Output>, Error>
      decreases |includes|
    {
      if includes == [] then Success(includedData)
      else
        match IncludeResourceIfAvailable(env, scope, data, includedData, includes[0])
        case Failure(e) => Failure(e)
        case Success(next) => Fold(env, scope, data, next, includes[1..])
    }

    /** The includes, in order, whose handler yields a resource. */
    function Produced(env: Env, scope: Scope, data: map<string, Value>, includes: seq<string>): seq<string>
    {
      if includes == [] then []
      else (if Yields(env, scope, data, includes[0]) then [includes[0]] else [])
           + Produced(env, scope, data, includes[1..])
    }

    /** What processing the includes of one data node results in. */
    function Resolve(env: Env, scope: Scope, data: map<string, Value>): Result<IncludedData, Error>
      reads this
    {
      match Fold(env, scope, data, [], Candidates(defaultIncludes, availableIncludes, data.Keys))
      case Failure(e) => Failure(e)
      case Success(a) => Success(if |a| == 0 then NoIncludes else Included(a))
    }

    /**
     * Processes the includes of one data node: attempts each candidate in
     * order, collects the child scopes' output by include name, and returns
     * `false` when nothing was included. The first error aborts the call.
     */
    method ProcessIncludedResources(env: Env, scope: Scope, data: map<string, Value>)
      returns (r: Result<IncludedData, Error>)
      ensures r == Resolve(env, scope, data)
      ensures var includes := Candidates(defaultIncludes, availableIncludes, data.Keys);
        && (r.Failure? <==> exists i :: 0 <= i < |includes| && CallIncludeMethod(env, scope, includes[i], data).Failure?)
        && (r == Success(NoIncludes) <==>
              forall i :: 0 <= i < |includes| ==> CallIncludeMethod(env, scope, includes[i], data) == Success(None))
        && (r.Success? && r.value.Included? ==>
              && Keys(r.value.entries) == Dedup(Produced(env, scope, data, includes))
              && forall k :: k in Keys(r.value.entries) <==> k in includes && Yields(env, scope, data, k))
    {
      var includedData: Assoc<Output> := [];
      var includes := FigureOutWhichIncludes(scope, data);
      var i := 0;
      while i < |includes|
        invariant 0 <= i <= |includes|
        invariant Fold(env, scope, data, includedData, includes[i..]) == Fold(env, scope, data, [], includes)
      {
        var step := IncludeResourceIfAvailable(env, scope, data, includedData, includes[i]);
        assert includes[i..][1..] == includes[i + 1..];
        if step.Failure? {
          r := Failure(step.error);
          ResolveSpec(this, env, scope, data);
          return;
        }
        includedData := step.value;
        i := i + 1;
      }
      r := Success(if |includedData| == 0 then NoIncludes else Included(includedData));
      ResolveSpec(this, env, scope, data);
    }

    /** `item()`: a single-item resource holding exactly what it was given. */
    function Item(data: Value, transformer: Transformer, resourceKey: Option<string>): (r: Resource)
      ensures r.ItemResource?
      ensures r.data == data && r.transformer == transformer && r.resourceKey == resourceKey
    {
      ItemResource(data, transformer, resourceKey)
    }

    /** `collection()`: a collection resource holding exactly what it was given. */
    function Collection(data: Value, transformer: Transformer, resourceKey: Option<string>): (r: Resource)
      ensures r.CollectionResource?
      ensures r.data == data && r.transformer == transformer && r.resourceKey == resourceKey
    {
      CollectionResource(data, transformer, resourceKey)
    }
  }

  /** The loop fails exactly when some include's handler fails. */
  lemma {:induction false} FoldFailure(v: Validator, env: Env, scope: Scope, data: map<string, Value>,
                                       acc: Assoc<Output>, includes: seq<string>)
    ensures v.Fold(env, scope, data, acc, includes).Failure? <==>
              exists i :: 0 <= i < |includes| && v.CallIncludeMethod(env, scope, includes[i], data).Failure?
    decreases |includes|
  {
    if includes != [] {
      var x, rest := includes[0], includes[1..];
      var step := v.IncludeResourceIfAvailable(env, scope, data, acc, x);
      if step.Failure? {
        assert v.CallIncludeMethod(env, scope, includes[0], data).Failure?;
      } else {
        assert v.Fold(env, scope, data, acc, includes) == v.Fold(env, scope, data, step.value, rest);
        FoldFailure(v, env, scope, data, step.value, rest);
        if i :| 0 <= i < |includes| && v.CallIncludeMethod(env, scope, includes[i], data).Failure? {
          assert i != 0 && rest[i - 1] == includes[i];
        }
        if i :| 0 <= i < |rest| && v.CallIncludeMethod(env, scope, rest[i], data).Failure? {
          assert includes[i + 1] == rest[i];
        }
      }
    }
  }

  /** When the loop fails, it fails with the error of the first include that fails; those before it succeeded. */
  lemma {:induction false} FoldFirstError(v: Validator, env: Env, scope: Scope, data: map<string, Value>,
                                          acc: Assoc<Output>, includes: seq<string>)
    requires v.Fold(env, scope, data, acc, includes).Failure?
    ensures exists i :: && 0 <= i < |includes|
                        && v.CallIncludeMethod(env, scope, includes[i], data) == Failure(v.Fold(env, scope, data, acc, includes).error)
                        && forall j :: 0 <= j < i ==> v.CallIncludeMethod(env, scope, includes[j], data).Success?
    decreases |includes|
  {
    var e := v.Fold(env, scope, data, acc, includes).error;
    var x, rest := includes[0], includes[1..];
    var step := v.IncludeResourceIfAvailable(env, scope, data, acc, x);
    if step.Failure? {
      assert v.CallIncludeMethod(env, scope, includes[0], data) == Failure(e);
    } else {
      assert v.Fold(env, scope, data, acc, includes) == v.Fold(env, scope, data, step.value, rest);
      FoldFirstError(v, env, scope, data, step.value, rest);
      var i :| && 0 <= i < |rest|
               && v.CallIncludeMethod(env, scope, rest[i], data) == Failure(e)
               && forall j :: 0 <= j < i ==> v.CallIncludeMethod(env, scope, rest[j], data).Success?;
      assert includes[i + 1] == rest[i];
      forall j | 0 <= j < i + 1
        ensures v.CallIncludeMethod(env, scope, includes[j], data).Success?
      {
        if j > 0 {
          assert includes[j] == rest[j - 1];
        }
      }
    }
  }

  /** An include is produced by the loop exactly when it is attempted and its handler yields. */
  lemma {:induction false} ProducedMembership(v: Validator, env: Env, scope: Scope, data: map<string, Value>,
                                              includes: seq<string>, k: string)
    ensures k in v.Produced(env, scope, data, includes) <==> k in includes && v.Yields(env, scope, data, k)
    decreases |includes|
  {
    if includes != [] {
      ProducedMembership(v, env, scope, data, includes[1..], k);
      assert includes == [includes[0]] + includes[1..];
    }
  }

  /** One include that does not fail either writes its child scope's output or leaves the data as it is. */
  lemma StepResult(v: Validator, env: Env, scope: Scope, data: map<string, Value>, acc: Assoc<Output>, x: string)
    requires v.IncludeResourceIfAvailable(env, scope, data, acc, x).Success?
    ensures v.Yields(env, scope, data, x) ==>
              v.IncludeResourceIfAvailable(env, scope, data, acc, x).value == Put(acc, x, v.YieldedOutput(env, scope, data, x))
    ensures !v.Yields(env, scope, data, x) ==> v.IncludeResourceIfAvailable(env, scope, data, acc, x).value == acc
  {
  }

  /**
   * When the loop succeeds from a well-formed array, the result is
   * well-formed and its keys are the old keys followed by the yielding
   * includes, each once, in the order each first yielded.
   */
  lemma {:induction false} FoldKeys(v: Validator, env: Env, scope: Scope, data: map<string, Value>,
                                    acc: Assoc<Output>, includes: seq<string>)
    requires WellFormed(acc)
    requires v.Fold(env, scope, data, acc, includes).Success?
    ensures Keys(v.Fold(env, scope, data, acc, includes).value) == Dedup(Keys(acc) + v.Produced(env, scope, data, includes))
    decreases |includes|
  {
    if includes == [] {
      DedupDistinct(Keys(acc));
      assert Keys(acc) + [] == Keys(acc);
    } else {
      var x, rest := includes[0], includes[1..];
      var step := v.IncludeResourceIfAvailable(env, scope, data, acc, x);
      var produced := v.Produced(env, scope, data, rest);
      assert v.Fold(env, scope, data, acc, includes) == v.Fold(env, scope, data, step.value, rest);
      StepResult(v, env, scope, data, acc, x);
      if v.Yields(env, scope, data, x) {
        assert Keys(step.value) == KeysAfterPut(Keys(acc), x);
        DedupAfterPut(Keys(acc), x, produced);
        FoldKeys(v, env, scope, data, step.value, rest);
        assert v.Produced(env, scope, data, includes) == [x] + produced;
      } else {
        FoldKeys(v, env, scope, data, step.value, rest);
        assert v.Produced(env, scope, data, includes) == produced;
      }
    }
  }

  /**
   * When the loop succeeds, a yielding include's entry is its child scope's
   * output, and the entry of every other name is left as it was.
   */
  lemma {:induction false} FoldValues(v: Validator, env: Env, scope: Scope, data: map<string, Value>,
                                      acc: Assoc<Output>, includes: seq<string>, k: string)
    requires v.Fold(env, scope, data, acc, includes).Success?
    ensures k in includes && v.Yields(env, scope, data, k) ==>
              Lookup(v.Fold(env, scope, data, acc, includes).value, k) == Some(v.YieldedOutput(env, scope, data, k))
    ensures !(k in includes && v.Yields(env, scope, data, k)) ==>
              Lookup(v.Fold(env, scope, data, acc, includes).value, k) == Lookup(acc, k)
    decreases |includes|
  {
    if includes != [] {
      var x, rest := includes[0], includes[1..];
      var step := v.IncludeResourceIfAvailable(env, scope, data, acc, x);
      assert v.Fold(env, scope, data, acc, includes) == v.Fold(env, scope, data, step.value, rest);
      assert includes == [x] + rest;
      FoldValues(v, env, scope, data, step.value, rest, k);
    }
  }

  /**
   * What processing the includes of a node amounts to: it fails exactly
   * when some candidate fails; it is `false` exactly when every candidate's
   * handler returned null; otherwise its keys are the yielding candidates,
   * each once, in the order they first yielded, each holding its child
   * scope's output.
   */
  lemma ResolveSpec(v: Validator, env: Env, scope: Scope, data: map<string, Value>)
    ensures var includes := Candidates(v.defaultIncludes, v.availableIncludes, data.Keys);
      var r := v.Resolve(env, scope, data);
      && (r.Failure? <==> exists i :: 0 <= i < |includes| && v.CallIncludeMethod(env, scope, includes[i], data).Failure?)
      && (r == Success(NoIncludes) <==>
            forall i :: 0 <= i < |includes| ==> v.CallIncludeMethod(env, scope, includes[i], data) == Success(None))
      && (r.Success? && r.value.Included? ==>
            && WellFormed(r.value.entries)
            && Keys(r.value.entries) == Dedup(v.Produced(env, scope, data, includes))
            && (forall k :: k in Keys(r.value.entries) <==> k in includes && v.Yields(env, scope, data, k))
            && forall k :: k in includes && v.Yields(env, scope, data, k) ==>
                 Lookup(r.value.entries, k) == Some(v.YieldedOutput(env, scope, data, k)))
  {
    var includes := Candidates(v.defaultIncludes, v.availableIncludes, data.Keys);
    var f := v.Fold(env, scope, data, [], includes);
    FoldFailure(v, env, scope, data, [], includes);
    if f.Success? {
      FoldKeys(v, env, scope, data, [], includes);
      DedupSpec(Keys<Output>([]) + v.Produced(env, scope, data, includes));
      forall k {
        FoldValues(v, env, scope, data, [], includes, k);
      }
      var produced := v.Produced(env, scope, data, includes);
      assert Keys<Output>([]) + produced == produced;
      DedupSpec(produced);
      forall k {
        ProducedMembership(v, env, scope, data, includes, k);
      }
      if |f.value| == 0 {
        forall i | 0 <= i < |includes|
          ensures v.CallIncludeMethod(env, scope, includes[i], data) == Success(None)
        {
          assert includes[i] in includes;
          assert includes[i] !in Dedup(produced);
        }
      } else {
        var k := Keys(f.value)[0];
        assert k in includes && v.Yields(env, scope, data, k);
        var i :| 0 <= i < |includes| && includes[i] == k;
        assert v.CallIncludeMethod(env, scope, includes[i], data) != Success(None);
      }
    }
  }

  /**
   * Every key of the included data is a default include, or an available
   * include whose key the data holds, and its handler yielded a resource:
   * an include whose handler returned null is never a key.
   */
  lemma ResolveKeysDeclared(v: Validator, env: Env, scope: Scope, data: map<string, Value>, k: string)
    requires v.Resolve(env, scope, data).Success? && v.Resolve(env, scope, data).value.Included?
    requires k in Keys(v.Resolve(env, scope, data).value.entries)
    ensures k in v.defaultIncludes || (k in v.availableIncludes && k in data)
    ensures v.HandlerOutput(env, scope, k, data) != Some(Null)
  {
    ResolveSpec(v, env, scope, data);
    FilterPresentMembership(v.availableIncludes, data.Keys, k);
  }

  /**
   * When an attempted include fails, processing fails with the error of the
   * first attempted include that fails, whatever the others would do.
   */
  lemma ResolveFirstError(v: Validator, env: Env, scope: Scope, data: map<string, Value>, i: nat)
    requires var includes := Candidates(v.defaultIncludes, v.availableIncludes, data.Keys);
      && i < |includes|
      && v.CallIncludeMethod(env, scope, includes[i], data).Failure?
      && forall j :: 0 <= j < i ==> v.CallIncludeMethod(env, scope, includes[j], data).Success?
    ensures v.Resolve(env, scope, data) ==
              Failure(v.CallIncludeMethod(env, scope, Candidates(v.defaultIncludes, v.availableIncludes, data.Keys)[i], data).error)
  {
    var includes := Candidates(v.defaultIncludes, v.availableIncludes, data.Keys);
    FoldFailure(v, env, scope, data, [], includes);
    FoldFirstError(v, env, scope, data, [], includes);
  }

  /**
   * A handler that returns something other than null or a resource makes the
   * whole call fail, when every include attempted before it succeeded, with
   * the error naming that handler.
   */
  lemma NotAResourceAborts(v: Validator, env: Env, scope: Scope, data: map<string, Value>, i: nat)
    requires var includes := Candidates(v.defaultIncludes, v.availableIncludes, data.Keys);
      && i < |includes|
      && v.HandlerOutput(env, scope, includes[i], data) == Some(NotAResource)
      && forall j :: 0 <= j < i ==> v.CallIncludeMethod(env, scope, includes[j], data).Success?
    ensures v.Resolve(env, scope, data) ==
              Failure(InvalidReturnValue(HandlerName.MethodName(Candidates(v.defaultIncludes, v.availableIncludes, data.Keys)[i])))
  {
    ResolveFirstError(v, env, scope, data, i);
  }

  /** With no default include and no available include present in the data, nothing is attempted and the result is `false`. */
  lemma NothingToAttempt(v: Validator, env: Env, scope: Scope, data: map<string, Value>)
    requires v.defaultIncludes == []
    requires forall x :: x in v.availableIncludes ==> x !in data
    ensures v.Resolve(env, scope, data) == Success(NoIncludes)
  {
    var present := FilterPresent(v.availableIncludes, data.Keys);
    if present != [] {
      FilterPresentMembership(v.availableIncludes, data.Keys, present[0]);
    }
    assert Candidates(v.defaultIncludes, v.availableIncludes, data.Keys) == [];
  }

  /**
   * A single attempted include whose handler yields a resource gives included
   * data holding exactly that include, mapped to its child scope's output.
   */
  lemma SingleInclude(v: Validator, env: Env, scope: Scope, data: map<string, Value>, name: string)
    requires Candidates(v.defaultIncludes, v.availableIncludes, data.Keys) == [name]
    requires v.Yields(env, scope, data, name)
    ensures v.Resolve(env, scope, data) == Success(Included([(name, v.YieldedOutput(env, scope, data, name))]))
  {
    var includes, out := [name], v.YieldedOutput(env, scope, data, name);
    assert includes[1..] == [];
    StepResult(v, env, scope, data, [], name);
    assert Put<Output>([], name, out) == [(name, out)];
    assert v.Fold(env, scope, data, [], includes) == v.Fold(env, scope, data, [(name, out)], []);
  }
}
