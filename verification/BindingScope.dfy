/** Lexical binding scopes. */
module BindingScope {
  // A `_BindingScope` points to its parent, and names declared `global` or `nonlocal` are
  // routed past the scope they are written in.

  import opened Order

  datatype Kind = Module | Function | Class

  type Bindings = map<Text, Text>

  /** The bindings of every scope at one moment. */
  type Env = map<Scope, Bindings>

  /** A scope: everything but its bindings is fixed when it is made. */
  class Scope {
    const parent: Scope?
    const kind: Kind
    const globalNames: set<Text>
    const nonlocalNames: set<Text>
    var bindings: Bindings
    ghost const depth: nat

    /** The chain of parents ends, at the only module scope in it. */
    ghost predicate Rooted()
      decreases depth
    {
      (parent == null <==> kind == Module) && (parent != null ==> parent.depth < depth && parent.Rooted())
    }

    ghost function Chain(): set<Scope>
      requires Rooted()
      decreases depth
    {
      {this} + if parent == null then {} else parent.Chain()
    }

    ghost function Root(): Scope
      requires Rooted()
      decreases depth
    {
      if parent == null then this else parent.Root()
    }

    /** The nearest ancestor that is not a class. */
    ghost function Enclosing(): Scope?
      requires Rooted()
      decreases depth
    {
      if parent == null then null else if parent.kind != Class then parent else parent.Enclosing()
    }

    constructor (parent: Scope?, kind: Kind, bindings: Bindings, globalNames: set<Text>, nonlocalNames: set<Text>)
      requires (parent == null <==> kind == Module) && (parent != null ==> parent.Rooted())
      ensures Rooted() && this.parent == parent && this.bindings == bindings
      ensures this.kind == kind && this.globalNames == globalNames && this.nonlocalNames == nonlocalNames
    {
      this.parent, this.kind, this.bindings := parent, kind, bindings;
      this.globalNames, this.nonlocalNames := globalNames, nonlocalNames;
      this.depth := if parent == null then 0 else parent.depth + 1;
    }

    /** `_module_scope`. */
    method ModuleScope() returns (scope: Scope)
      requires Rooted()
      ensures scope == Root() && scope in Chain()
    {
      scope := this;
      while scope.parent != null
        invariant scope.Rooted() && scope.Root() == Root() && scope.Chain() <= Chain()
        decreases scope.depth
      {
        scope := scope.parent;
      }
    }

    /** `_nonlocal_parent`. */
    method NonlocalParent() returns (scope: Scope?)
      requires Rooted()
      ensures scope == Enclosing()
    {
      scope := parent;
      ghost var below: Scope := this;
      while scope != null && scope.kind == Class
        invariant scope != null ==> scope.Rooted()
        invariant below.Rooted() && scope == below.parent && below.Enclosing() == Enclosing()
        decreases if scope == null then 0 else scope.depth + 1
      {
        below := scope;
        scope := scope.parent;
      }
    }

    /** The bindings of the chain now. */
    ghost function Now(): Env
      requires Rooted()
      reads Chain()
    {
      map s | s in Chain() :: s.bindings
    }

    /** `resolve`. */
    method Resolve(name: Text) returns (r: Option<Text>)
      requires Rooted()
      ensures Covers(Now(), this) && r == ResolveIn(Now(), this, name)
      decreases depth
    {
      NowCovers(this);
      if name in globalNames {
        var root := ModuleScope();
        return if name in root.bindings then Some(root.bindings[name]) else None;
      }
      if name in nonlocalNames {
        var p := NonlocalParent();
        if p == null {
          return None;
        }
        EnclosingBelow(this);
        r := p.Resolve(name);
        ResolveInPart(Now(), p.Now(), p, name);
        return;
      }
      if name in bindings {
        return Some(bindings[name]);
      }
      if parent == null {
        return None;
      }
      r := parent.Resolve(name);
      ResolveInPart(Now(), parent.Now(), parent, name);
    }

    /** `bind`: one binding of the scope the name is routed to, and nothing else. */
    method Bind(name: Text, binding: Text)
      requires Rooted()
      modifies Chain()
      ensures Covers(old(Now()), this) && Now() == BindIn(old(Now()), this, name, binding)
      decreases depth
    {
      hide Owner, Scope.Enclosing, Scope.Root, Scope.Chain;
      NowCovers(this);
      InOwnChain(this);
      ChainAllocated(this);
      OwnerCases(this, name);
      if name in globalNames {
        var root := ModuleScope();
        root.bindings := root.bindings[name := binding];
      } else if name in nonlocalNames {
        var p := NonlocalParent();
        if p != null {
          EnclosingBelow(this);
          OwnerInChain(p, name);
          p.Bind(name, binding);
        }
      } else {
        bindings := bindings[name := binding];
      }
    }

    /** `is_lexically_local`. */
    method IsLexicallyLocal(name: Text) returns (r: bool)
      requires Rooted()
      ensures Covers(Now(), this) && r == LocalIn(Now(), this, name)
      decreases depth
    {
      NowCovers(this);
      if name in globalNames {
        return false;
      }
      if name in nonlocalNames {
        var p := NonlocalParent();
        if p == null {
          return false;
        }
        EnclosingBelow(this);
        r := p.IsLexicallyLocal(name);
        LocalInPart(Now(), p.Now(), p, name);
        return;
      }
      if name in bindings {
        return kind != Module;
      }
      if parent == null {
        return false;
      }
      r := parent.IsLexicallyLocal(name);
      LocalInPart(Now(), parent.Now(), parent, name);
    }
  }

  // ------------------------------------------------- the same on a moment's bindings

  ghost predicate Covers(env: Env, s: Scope) { s.Rooted() && s.Chain() <= env.Keys }

  ghost function ResolveIn(env: Env, s: Scope, name: Text): Option<Text>
    requires Covers(env, s)
    decreases s.depth
  {
    RootBelow(s);
    EnclosingBelow(s);
    if name in s.globalNames then (if name in env[s.Root()] then Some(env[s.Root()][name]) else None)
    else if name in s.nonlocalNames then (if s.Enclosing() == null then None else ResolveIn(env, s.Enclosing(), name))
    else if name in env[s] then Some(env[s][name])
    else if s.parent == null then None
    else ResolveIn(env, s.parent, name)
  }

  ghost function LocalIn(env: Env, s: Scope, name: Text): bool
    requires Covers(env, s)
    decreases s.depth
  {
    EnclosingBelow(s);
    if name in s.globalNames then false
    else if name in s.nonlocalNames then s.Enclosing() != null && LocalIn(env, s.Enclosing(), name)
    else if name in env[s] then s.kind != Module
    else s.parent != null && LocalIn(env, s.parent, name)
  }

  lemma {:induction false} RootBelow(s: Scope)
    requires s.Rooted()
    ensures s.Root() in s.Chain() && s.Root().parent == null
    decreases s.depth
  {
    if s.parent != null { RootBelow(s.parent); }
  }

  lemma {:induction false} EnclosingBelow(s: Scope)
    requires s.Rooted()
    ensures s.Enclosing() == null <==> s.parent == null
    ensures s.Enclosing() != null ==>
              && s.Enclosing().Rooted() && s.Enclosing().depth < s.depth && s.Enclosing().Chain() <= s.Chain()
              && s.Enclosing().Root() == s.Root() && s.Enclosing() != s && s.Enclosing().kind != Class
    decreases s.depth
  {
    if s.parent != null && s.parent.kind == Class { EnclosingBelow(s.parent); }
  }

  lemma {:induction false} ChainAllocated(s: Scope)
    requires s.Rooted()
    ensures forall t :: t in s.Chain() ==> allocated(t)
    decreases s.depth
  {
    if s.parent != null { ChainAllocated(s.parent); }
  }

  lemma NowCovers(s: Scope)
    requires s.Rooted()
    ensures Covers(s.Now(), s)
  {
  }

  /** Only the bindings of a scope's own chain matter to it. */
  lemma {:induction false} ResolveInPart(env: Env, part: Env, s: Scope, name: Text)
    requires Covers(env, s) && Covers(part, s) && forall t :: t in s.Chain() ==> env[t] == part[t]
    ensures ResolveIn(env, s, name) == ResolveIn(part, s, name)
    decreases s.depth
  {
    RootBelow(s);
    EnclosingBelow(s);
    if s.Enclosing() != null { ResolveInPart(env, part, s.Enclosing(), name); }
    if s.parent != null { ResolveInPart(env, part, s.parent, name); }
  }

  lemma {:induction false} LocalInPart(env: Env, part: Env, s: Scope, name: Text)
    requires Covers(env, s) && Covers(part, s) && forall t :: t in s.Chain() ==> env[t] == part[t]
    ensures LocalIn(env, s, name) == LocalIn(part, s, name)
    decreases s.depth
  {
    EnclosingBelow(s);
    if s.Enclosing() != null { LocalInPart(env, part, s.Enclosing(), name); }
    if s.parent != null { LocalInPart(env, part, s.parent, name); }
  }

  // ------------------------------------------------- up the chain

  /** `n` parents up, or past the end of the chain. */
  ghost function Up(s: Scope, n: nat): Scope? {
    if n == 0 then s else if Up(s, n - 1) == null then null else Up(s, n - 1).parent
  }

  lemma {:induction false} UpFromParent(s: Scope, n: nat)
    requires s.parent != null
    ensures Up(s, n + 1) == Up(s.parent, n)
  {
    if n > 0 { UpFromParent(s, n - 1); }
  }

  /** A nonlocal name goes to the nearest ancestor that is no class: every scope passed on the way is one. */
  lemma {:induction false} EnclosingIsNearest(s: Scope) returns (n: nat)
    requires s.Rooted() && s.parent != null
    ensures n >= 1 && s.Enclosing() != null && Up(s, n) == s.Enclosing() && s.Enclosing().kind != Class
    ensures forall i :: 1 <= i < n ==> Up(s, i) != null && Up(s, i).kind == Class
    decreases s.depth
  {
    n := 1;
    UpFromParent(s, 0);
    if s.parent.kind == Class {
      var m := EnclosingIsNearest(s.parent);
      n := m + 1;
      UpFromParent(s, m);
      forall i | 1 <= i < n ensures Up(s, i) != null && Up(s, i).kind == Class {
        UpFromParent(s, i - 1);
      }
    }
  }

  /** The module scope is the end of the chain. */
  lemma {:induction false} RootIsLast(s: Scope) returns (n: nat)
    requires s.Rooted()
    ensures Up(s, n) == s.Root() && Up(s, n + 1) == null && s.Root().kind == Module
    decreases s.depth
  {
    n := 0;
    if s.parent != null {
      var m := RootIsLast(s.parent);
      n := m + 1;
      UpFromParent(s, m);
      UpFromParent(s, m + 1);
    }
  }

  // ------------------------------------------------- where a name goes

  /** The scope that `bind` writes to. */
  ghost function Owner(s: Scope, name: Text): Scope?
    requires s.Rooted()
    decreases s.depth
  {
    EnclosingBelow(s);
    if name in s.globalNames then s.Root()
    else if name in s.nonlocalNames then (if s.Enclosing() == null then null else Owner(s.Enclosing(), name))
    else s
  }

  lemma InOwnChain(s: Scope)
    requires s.Rooted()
    ensures s in s.Chain()
    ensures s.parent != null ==> s.parent.Rooted() && s.parent.Chain() <= s.Chain() && s.parent.depth < s.depth
  {
  }

  lemma OwnerCases(s: Scope, name: Text)
    requires s.Rooted()
    ensures name in s.globalNames ==> Owner(s, name) == s.Root()
    ensures name !in s.globalNames && name in s.nonlocalNames ==>
              Owner(s, name) ==
              if s.Enclosing() == null || !s.Enclosing().Rooted() then null else Owner(s.Enclosing(), name)
    ensures name !in s.globalNames && name !in s.nonlocalNames ==> Owner(s, name) == s
  {
    EnclosingBelow(s);
  }

  lemma {:induction false} OwnerInChain(s: Scope, name: Text)
    requires s.Rooted()
    ensures Owner(s, name) != null ==> Owner(s, name) in s.Chain()
    decreases s.depth
  {
    RootBelow(s);
    EnclosingBelow(s);
    if s.Enclosing() != null { OwnerInChain(s.Enclosing(), name); }
  }

  ghost function BindIn(env: Env, s: Scope, name: Text, binding: Text): Env
    requires Covers(env, s)
  {
    OwnerInChain(s, name);
    var o := Owner(s, name);
    if o == null then env else env[o := env[o][name := binding]]
  }

  /** The scope whose binding `resolve` returns. */
  ghost function Reached(env: Env, s: Scope, name: Text): Scope?
    requires Covers(env, s)
    decreases s.depth
  {
    RootBelow(s);
    EnclosingBelow(s);
    if name in s.globalNames then (if name in env[s.Root()] then s.Root() else null)
    else if name in s.nonlocalNames then (if s.Enclosing() == null then null else Reached(env, s.Enclosing(), name))
    else if name in env[s] then s
    else if s.parent == null then null
    else Reached(env, s.parent, name)
  }

  /** `resolve` returns what the reached scope binds, and nothing when it reaches none. */
  lemma {:induction false} ResolveIsReached(env: Env, s: Scope, name: Text)
    requires Covers(env, s)
    ensures var o := Reached(env, s, name);
            && (o != null ==> o in s.Chain() && name in env[o])
            && ResolveIn(env, s, name) == if o == null then None else Some(env[o][name])
    decreases s.depth
  {
    RootBelow(s);
    EnclosingBelow(s);
    if s.Enclosing() != null { ResolveIsReached(env, s.Enclosing(), name); }
    if s.parent != null { ResolveIsReached(env, s.parent, name); }
  }

  /** Without declarations, a name means what the nearest scope up the chain that binds it says. */
  lemma {:induction false} NearestBinding(env: Env, s: Scope, name: Text) returns (n: nat)
    requires Covers(env, s) && forall t :: t in s.Chain() ==> name !in t.globalNames && name !in t.nonlocalNames
    ensures forall i :: 0 <= i < n ==> Up(s, i) != null && Up(s, i) in env && name !in env[Up(s, i)]
    ensures Up(s, n) == null ==> ResolveIn(env, s, name) == None
    ensures Up(s, n) != null ==>
              && Up(s, n) in env && name in env[Up(s, n)] && ResolveIn(env, s, name) == Some(env[Up(s, n)][name])
    decreases s.depth
  {
    n := 0;
    if name !in env[s] {
      n := 1;
      if s.parent != null {
        var m := NearestBinding(env, s.parent, name);
        n := m + 1;
        UpFromParent(s, m);
        forall i | 0 <= i < n ensures Up(s, i) != null && Up(s, i) in env && name !in env[Up(s, i)] {
          if i > 0 { UpFromParent(s, i - 1); }
        }
      }
    }
  }

  /**
   A global name means what the end of the chain binds, a nonlocal one what it means in the
   nearest ancestor that is no class.
   */
  lemma DeclaredLookup(env: Env, s: Scope, name: Text) returns (n: nat)
    requires Covers(env, s) && (name in s.globalNames || name in s.nonlocalNames)
    ensures name in s.globalNames ==>
              && Up(s, n) != null && Up(s, n + 1) == null && Up(s, n) in env
              && ResolveIn(env, s, name) == if name in env[Up(s, n)] then Some(env[Up(s, n)][name]) else None
    ensures name !in s.globalNames && s.parent == null ==> ResolveIn(env, s, name) == None
    ensures name !in s.globalNames && s.parent != null ==>
              && n >= 1 && Up(s, n) != null && Up(s, n).kind != Class && Covers(env, Up(s, n))
              && (forall i :: 1 <= i < n ==> Up(s, i) != null && Up(s, i).kind == Class)
              && ResolveIn(env, s, name) == ResolveIn(env, Up(s, n), name)
  {
    RootBelow(s);
    EnclosingBelow(s);
    if name in s.globalNames {
      n := RootIsLast(s);
    } else if s.parent != null {
      n := EnclosingIsNearest(s);
    } else {
      n := 0;
    }
  }

  /** A bound name is reached where it was bound. */
  lemma {:induction false} ReachedIsOwner(env: Env, s: Scope, name: Text)
    requires Covers(env, s)
    ensures Owner(s, name) == null ==> Reached(env, s, name) == null
    ensures Owner(s, name) != null && Owner(s, name) in env && name in env[Owner(s, name)] ==>
            Reached(env, s, name) == Owner(s, name)
    decreases s.depth
  {
    EnclosingBelow(s);
    if s.Enclosing() != null { ReachedIsOwner(env, s.Enclosing(), name); }
  }

  /** Every scope that a nonlocal declaration may route a name through, the scope itself first. */
  ghost function Route(s: Scope): set<Scope>
    requires s.Rooted()
    decreases s.depth
  {
    EnclosingBelow(s);
    {s} + if s.Enclosing() == null then {} else Route(s.Enclosing())
  }

  /** The name is declared nonlocal, and not global, all the way up to the module. */
  ghost predicate Lost(s: Scope, name: Text)
    requires s.Rooted()
  {
    forall t :: t in Route(s) ==> name in t.nonlocalNames && name !in t.globalNames
  }

  lemma {:induction false} LostHasNoOwner(s: Scope, name: Text)
    requires s.Rooted()
    ensures Owner(s, name) == null <==> Lost(s, name)
    decreases s.depth
  {
    EnclosingBelow(s);
    assert s in Route(s);
    if s.Enclosing() != null {
      LostHasNoOwner(s.Enclosing(), name);
      assert Route(s.Enclosing()) <= Route(s);
    }
  }

  /**
   `bind` then `resolve` in the same scope returns the bound value, except for a name
   declared nonlocal all the way up to the module, which is dropped.
   */
  lemma BindThenResolve(env: Env, s: Scope, name: Text, binding: Text)
    requires Covers(env, s)
    ensures ResolveIn(BindIn(env, s, name, binding), s, name) == Some(binding) <==> !Lost(s, name)
    ensures Lost(s, name) ==> BindIn(env, s, name, binding) == env && ResolveIn(env, s, name) == None
  {
    hide Lost, Owner, Reached, ResolveIn;
    var after := BindIn(env, s, name, binding);
    LostHasNoOwner(s, name);
    OwnerInChain(s, name);
    ReachedIsOwner(after, s, name);
    ResolveIsReached(after, s, name);
  }

  /** A module scope that declares no nonlocal names loses nothing, in any scope below it. */
  lemma PlainModuleLosesNothing(s: Scope, name: Text)
    requires s.Rooted() && name !in s.Root().nonlocalNames
    ensures !Lost(s, name)
  {
    RootOnRoute(s);
  }

  lemma {:induction false} RootOnRoute(s: Scope)
    requires s.Rooted()
    ensures s.Root() in Route(s)
    decreases s.depth
  {
    EnclosingBelow(s);
    RootBelow(s);
    if s.Enclosing() != null { RootOnRoute(s.Enclosing()); }
  }

  /** Every other name resolves, is reached and is local as before, in every scope. */
  lemma {:induction false} OtherNamesKeep(env: Env, s: Scope, t: Scope, name: Text, binding: Text, other: Text)
    requires Covers(env, s) && Covers(env, t) && other != name
    ensures var after := BindIn(env, s, name, binding);
            && Covers(after, t) && ResolveIn(after, t, other) == ResolveIn(env, t, other)
            && Reached(after, t, other) == Reached(env, t, other) && LocalIn(after, t, other) == LocalIn(env, t, other)
    decreases t.depth
  {
    hide Owner, Scope.Chain, Scope.Root, Scope.Enclosing;
    var after := BindIn(env, s, name, binding);
    OwnerInChain(s, name);
    InOwnChain(t);
    RootBelow(t);
    EnclosingBelow(t);
    if t.Enclosing() != null { OtherNamesKeep(env, s, t.Enclosing(), name, binding, other); }
    if t.parent != null { OtherNamesKeep(env, s, t.parent, name, binding, other); }
  }

  /** The bound name changes in exactly the scopes whose lookup reaches the scope bound in. */
  lemma {:induction false} SameNameElsewhere(env: Env, s: Scope, t: Scope, name: Text, binding: Text)
    requires Covers(env, s) && Covers(env, t)
    ensures var after := BindIn(env, s, name, binding);
            Covers(after, t) &&
            ResolveIn(after, t, name) ==
            if Reached(after, t, name) != null && Reached(after, t, name) == Owner(s, name)
            then Some(binding) else ResolveIn(env, t, name)
    decreases t.depth
  {
    hide Owner, Scope.Chain, Scope.Root, Scope.Enclosing;
    var after := BindIn(env, s, name, binding);
    OwnerInChain(s, name);
    InOwnChain(t);
    RootBelow(t);
    EnclosingBelow(t);
    if t.Enclosing() != null { SameNameElsewhere(env, s, t.Enclosing(), name, binding); }
    if t.parent != null { SameNameElsewhere(env, s, t.parent, name, binding); }
  }

  /** A name is lexically local exactly when the binding that `resolve` reaches is outside the module. */
  lemma {:induction false} LocalExactly(env: Env, s: Scope, name: Text)
    requires Covers(env, s)
    ensures LocalIn(env, s, name) <==> Reached(env, s, name) != null && Reached(env, s, name) != s.Root()
    decreases s.depth
  {
    RootBelow(s);
    EnclosingBelow(s);
    if s.Enclosing() != null { LocalExactly(env, s.Enclosing(), name); }
    if s.parent != null { LocalExactly(env, s.parent, name); }
  }

  /**
   A module scope that declares a name nonlocal, which the extractor never makes, drops
   what is bound to it.
   */
  method DroppedBinding(name: Text, binding: Text) returns (s: Scope, r: Option<Text>)
    ensures fresh(s) && s.Rooted() && Lost(s, name) && r == None
  {
    s := new Scope(null, Module, map[], {}, {name});
    assert Route(s) == {s};
    s.Bind(name, binding);
    r := s.Resolve(name);
    BindThenResolve(s.Now(), s, name, binding);
  }
}
