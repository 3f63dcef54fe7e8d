/** `ReflexClass`: member lookup over a class hierarchy, with reflection
    abstracted.  A class is what reflection reports of it (name, declared
    members, superclass, interfaces); a `ReflexClass` node is the wrapper
    built over it, which records the superclass except `java.lang.Object`
    and one node per interface.  Name remapping, boxing of primitive types
    and assignability are supplied by the caller as a `Runtime`. */
module Reflex {
  import opened Wrappers
  import Seqs

  type ClassName = string

  const ObjectName: ClassName := "java.lang.Object"

  datatype FieldInfo = FieldInfo(name: string, fieldType: ClassName)
  datatype MethodInfo = MethodInfo(name: string, parameterTypes: seq<ClassName>)
  datatype ConstructorInfo = ConstructorInfo(parameterTypes: seq<ClassName>)

  /** A class as reflection sees it. */
  datatype JClass = JClass(
    name: ClassName,
    declaredFields: seq<FieldInfo>,
    declaredMethods: seq<MethodInfo>,
    declaredConstructors: seq<ConstructorInfo>,
    superclass: Option<JClass>,
    interfaces: seq<JClass>)

  /** One entry of `Reflex.remapper`: renames a field or a method, given the
      name of the class being searched. */
  datatype Remapper = Remapper(renameField: (ClassName, string) -> string, renameMethod: (ClassName, string) -> string)

  /** What the lookup takes from outside the class model: the remapper list,
      `nonPrimitive` (a primitive type to its box class), and
      `isAssignableFrom(target, source)`. */
  datatype Runtime = Runtime(
    remappers: seq<Remapper>,
    nonPrimitive: ClassName -> ClassName,
    isAssignableFrom: (ClassName, ClassName) -> bool)

  /** A `ReflexClass` node: the class, its recorded superclass node and its
      interface nodes in declaration order. */
  datatype ReflexClass = ReflexClass(clazz: JClass, superclass: Option<ReflexClass>, interfaces: seq<ReflexClass>)

  // -----------------------------------------------------------------------
  // Construction (init)

  /** No node of the tree records `Object` as its superclass. */
  ghost predicate NoObjectSuperclass(r: ReflexClass)
    decreases r
  {
    && (r.superclass.Some? ==> r.superclass.value.clazz.name != ObjectName && NoObjectSuperclass(r.superclass.value))
    && forall i :: 0 <= i < |r.interfaces| ==> NoObjectSuperclass(r.interfaces[i])
  }

  /** Java never lists `Object` among the interfaces of a class. */
  ghost predicate NoObjectInterface(c: JClass)
    decreases c
  {
    && (c.superclass.Some? ==> NoObjectInterface(c.superclass.value))
    && forall i :: 0 <= i < |c.interfaces| ==> c.interfaces[i].name != ObjectName && NoObjectInterface(c.interfaces[i])
  }

  /** No node below the root of the tree is `Object`. */
  ghost predicate NoObjectBelowRoot(r: ReflexClass)
    decreases r
  {
    && (r.superclass.Some? ==> r.superclass.value.clazz.name != ObjectName && NoObjectBelowRoot(r.superclass.value))
    && forall i :: 0 <= i < |r.interfaces| ==> r.interfaces[i].clazz.name != ObjectName && NoObjectBelowRoot(r.interfaces[i])
  }

  /** `ReflexClass(clazz)`: the superclass is recorded unless it is absent or
      `Object`; every interface gets its own node, in order. */
  function Build(c: JClass): (r: ReflexClass)
    ensures r.clazz == c
    ensures r.superclass.Some? <==> c.superclass.Some? && c.superclass.value.name != ObjectName
    ensures r.superclass.Some? ==> r.superclass.value.clazz == c.superclass.value
    ensures |r.interfaces| == |c.interfaces|
    ensures forall i :: 0 <= i < |r.interfaces| ==> r.interfaces[i].clazz == c.interfaces[i]
    ensures NoObjectSuperclass(r)
    ensures NoObjectInterface(c) ==> NoObjectBelowRoot(r)
    decreases c
  {
    var sup := if c.superclass.Some? && c.superclass.value.name != ObjectName then Some(Build(c.superclass.value)) else None;
    var ifaces := seq(|c.interfaces|, i requires 0 <= i < |c.interfaces| => Build(c.interfaces[i]));
    ReflexClass(c, sup, ifaces)
  }

  // -----------------------------------------------------------------------
  // The search shared by findField and findMethod

  /** The remapper list folded over a name, in list order. */
  function RemapField(remappers: seq<Remapper>, owner: ClassName, name: string): string
    decreases |remappers|
  {
    if |remappers| == 0 then name else RemapField(remappers[1..], owner, remappers[0].renameField(owner, name))
  }

  function RemapMethod(remappers: seq<Remapper>, owner: ClassName, name: string): string
    decreases |remappers|
  {
    if |remappers| == 0 then name else RemapMethod(remappers[1..], owner, remappers[0].renameMethod(owner, name))
  }

  /** The member lookup of `findField`/`findMethod`: rename for this class,
      look among this class's own members (`pick`), then search the
      superclass node, then each interface node in order, all with the
      renamed name. */
  function Search<M>(c: ReflexClass, name: string, rename: (ClassName, string) -> string, pick: (JClass, string) -> Option<M>): Option<M>
    decreases c, |c.interfaces| + 1
  {
    var n := rename(c.clazz.name, name);
    match pick(c.clazz, n)
    case Some(m) => Some(m)
    case None =>
      match (if c.superclass.Some? then Search(c.superclass.value, n, rename, pick) else None)
      case Some(m) => Some(m)
      case None => SearchInterfaces(c, 0, n, rename, pick)
  }

  function SearchInterfaces<M>(c: ReflexClass, i: nat, name: string, rename: (ClassName, string) -> string, pick: (JClass, string) -> Option<M>): Option<M>
    requires i <= |c.interfaces|
    decreases c, |c.interfaces| - i
  {
    if i == |c.interfaces| then None
    else
      match Search(c.interfaces[i], name, rename, pick)
      case Some(m) => Some(m)
      case None => SearchInterfaces(c, i + 1, name, rename, pick)
  }

  /** A class the search looks into, with the name it looks for there. */
  datatype Visit = Visit(clazz: JClass, name: string)

  /** The classes the search visits, in order: the class itself, then the
      superclass subtree, then each interface subtree. */
  function SearchOrder(c: ReflexClass, name: string, rename: (ClassName, string) -> string): (order: seq<Visit>)
    ensures |order| >= 1 && order[0] == Visit(c.clazz, rename(c.clazz.name, name))
    decreases c, |c.interfaces| + 1
  {
    var n := rename(c.clazz.name, name);
    [Visit(c.clazz, n)]
      + (if c.superclass.Some? then SearchOrder(c.superclass.value, n, rename) else [])
      + InterfacesOrder(c, 0, n, rename)
  }

  function InterfacesOrder(c: ReflexClass, i: nat, name: string, rename: (ClassName, string) -> string): seq<Visit>
    requires i <= |c.interfaces|
    decreases c, |c.interfaces| - i
  {
    if i == |c.interfaces| then []
    else SearchOrder(c.interfaces[i], name, rename) + InterfacesOrder(c, i + 1, name, rename)
  }

  /** The member picked from the first visit that has one. */
  function FirstPick<M>(visits: seq<Visit>, pick: (JClass, string) -> Option<M>): (r: Option<M>)
    ensures r.Some? ==> exists i :: (0 <= i < |visits| && pick(visits[i].clazz, visits[i].name) == r
                                     && forall j :: 0 <= j < i ==> pick(visits[j].clazz, visits[j].name).None?)
    ensures r.None? <==> forall i :: 0 <= i < |visits| ==> pick(visits[i].clazz, visits[i].name).None?
    decreases |visits|
  {
    if |visits| == 0 then None
    else
      match pick(visits[0].clazz, visits[0].name)
      case Some(m) => Some(m)
      case None =>
        var r := FirstPick(visits[1..], pick);
        assert forall i :: 1 <= i < |visits| ==> visits[i] == visits[1..][i - 1];
        assert r.Some? ==> exists i :: (0 <= i < |visits| && pick(visits[i].clazz, visits[i].name) == r
                                        && forall j :: 0 <= j < i ==> pick(visits[j].clazz, visits[j].name).None?) by {
          if r.Some? {
            var i :| 0 <= i < |visits| - 1 && pick(visits[1..][i].clazz, visits[1..][i].name) == r
              && forall j :: 0 <= j < i ==> pick(visits[1..][j].clazz, visits[1..][j].name).None?;
            assert pick(visits[i + 1].clazz, visits[i + 1].name) == r;
            forall j | 0 <= j < i + 1 ensures pick(visits[j].clazz, visits[j].name).None? {
              if j > 0 { assert visits[j] == visits[1..][j - 1]; }
            }
          }
        }
        r
  }

  lemma {:induction false} FirstPickAppend<M>(a: seq<Visit>, b: seq<Visit>, pick: (JClass, string) -> Option<M>)
    ensures FirstPick(a + b, pick) == if FirstPick(a, pick).Some? then FirstPick(a, pick) else FirstPick(b, pick)
    decreases |a|
  {
    if |a| == 0 {
      assert a + b == b;
    } else {
      assert (a + b)[0] == a[0];
      assert (a + b)[1..] == a[1..] + b;
      FirstPickAppend(a[1..], b, pick);
    }
  }

  /** The recursive search returns exactly the first member found along
      `SearchOrder`. */
  lemma {:induction false} SearchIsFirstPick<M>(c: ReflexClass, name: string, rename: (ClassName, string) -> string, pick: (JClass, string) -> Option<M>)
    ensures Search(c, name, rename, pick) == FirstPick(SearchOrder(c, name, rename), pick)
    decreases c, |c.interfaces| + 1
  {
    var n := rename(c.clazz.name, name);
    var head := [Visit(c.clazz, n)];
    var sup := if c.superclass.Some? then SearchOrder(c.superclass.value, n, rename) else [];
    var rest := InterfacesOrder(c, 0, n, rename);
    assert SearchOrder(c, name, rename) == head + (sup + rest);
    FirstPickAppend(head, sup + rest, pick);
    FirstPickAppend(sup, rest, pick);
    if c.superclass.Some? {
      SearchIsFirstPick(c.superclass.value, n, rename, pick);
    }
    SearchInterfacesIsFirstPick(c, 0, n, rename, pick);
  }

  lemma {:induction false} SearchInterfacesIsFirstPick<M>(c: ReflexClass, i: nat, name: string, rename: (ClassName, string) -> string, pick: (JClass, string) -> Option<M>)
    requires i <= |c.interfaces|
    ensures SearchInterfaces(c, i, name, rename, pick) == FirstPick(InterfacesOrder(c, i, name, rename), pick)
    decreases c, |c.interfaces| - i
  {
    if i < |c.interfaces| {
      SearchIsFirstPick(c.interfaces[i], name, rename, pick);
      SearchInterfacesIsFirstPick(c, i + 1, name, rename, pick);
      FirstPickAppend(SearchOrder(c.interfaces[i], name, rename), InterfacesOrder(c, i + 1, name, rename), pick);
    }
  }

  /** On a tree with no `Object` below its root, no visit after the first is
      to `Object`: the lookup never descends into it. */
  lemma {:induction false} SearchOrderAvoidsObject(c: ReflexClass, name: string, rename: (ClassName, string) -> string)
    requires NoObjectBelowRoot(c)
    ensures forall i :: 1 <= i < |SearchOrder(c, name, rename)| ==> SearchOrder(c, name, rename)[i].clazz.name != ObjectName
    decreases c, |c.interfaces| + 1
  {
    var n := rename(c.clazz.name, name);
    var sup := if c.superclass.Some? then SearchOrder(c.superclass.value, n, rename) else [];
    var rest := InterfacesOrder(c, 0, n, rename);
    if c.superclass.Some? {
      SearchOrderAvoidsObject(c.superclass.value, n, rename);
    }
    InterfacesOrderAvoidsObject(c, 0, n, rename);
    var order := SearchOrder(c, name, rename);
    assert order == [Visit(c.clazz, n)] + sup + rest;
    forall i | 1 <= i < |order| ensures order[i].clazz.name != ObjectName {
      if i < 1 + |sup| {
        assert order[i] == sup[i - 1];
      } else {
        assert order[i] == rest[i - 1 - |sup|];
      }
    }
  }

  lemma {:induction false} InterfacesOrderAvoidsObject(c: ReflexClass, i: nat, name: string, rename: (ClassName, string) -> string)
    requires i <= |c.interfaces|
    requires forall k :: 0 <= k < |c.interfaces| ==> c.interfaces[k].clazz.name != ObjectName && NoObjectBelowRoot(c.interfaces[k])
    ensures forall j :: 0 <= j < |InterfacesOrder(c, i, name, rename)| ==> InterfacesOrder(c, i, name, rename)[j].clazz.name != ObjectName
    decreases c, |c.interfaces| - i
  {
    if i < |c.interfaces| {
      var first := SearchOrder(c.interfaces[i], name, rename);
      var rest := InterfacesOrder(c, i + 1, name, rename);
      SearchOrderAvoidsObject(c.interfaces[i], name, rename);
      InterfacesOrderAvoidsObject(c, i + 1, name, rename);
      var order := InterfacesOrder(c, i, name, rename);
      assert order == first + rest;
      forall j | 0 <= j < |order| ensures order[j].clazz.name != ObjectName {
        if j < |first| {
          assert order[j] == first[j];
        } else {
          assert order[j] == rest[j - |first|];
        }
      }
    }
  }

  /** A class built from Java reflection never visits `Object` after itself. */
  lemma BuiltSearchAvoidsObject(c: JClass, name: string, rename: (ClassName, string) -> string)
    requires NoObjectInterface(c)
    ensures forall i :: 1 <= i < |SearchOrder(Build(c), name, rename)| ==> SearchOrder(Build(c), name, rename)[i].clazz.name != ObjectName
  {
    SearchOrderAvoidsObject(Build(c), name, rename);
  }

  /** Which branch of the lookup answers: the class's own members first;
      failing those, the superclass node; failing that, the first interface
      node, in declaration order, that answers. */
  lemma {:induction false} SearchPrecedence<M>(c: ReflexClass, name: string, rename: (ClassName, string) -> string, pick: (JClass, string) -> Option<M>)
    ensures var n := rename(c.clazz.name, name);
      pick(c.clazz, n).Some? ==> Search(c, name, rename, pick) == pick(c.clazz, n)
    ensures var n := rename(c.clazz.name, name);
      pick(c.clazz, n).None? && c.superclass.Some? && Search(c.superclass.value, n, rename, pick).Some? ==>
        Search(c, name, rename, pick) == Search(c.superclass.value, n, rename, pick)
    ensures var n := rename(c.clazz.name, name);
      forall i :: 0 <= i < |c.interfaces| && pick(c.clazz, n).None?
        && (c.superclass.None? || Search(c.superclass.value, n, rename, pick).None?)
        && (forall j :: 0 <= j < i ==> Search(c.interfaces[j], n, rename, pick).None?)
        && Search(c.interfaces[i], n, rename, pick).Some?
        ==> Search(c, name, rename, pick) == Search(c.interfaces[i], n, rename, pick)
  {
    var n := rename(c.clazz.name, name);
    forall i | 0 <= i < |c.interfaces| && (forall j :: 0 <= j < i ==> Search(c.interfaces[j], n, rename, pick).None?)
        && Search(c.interfaces[i], n, rename, pick).Some?
      ensures SearchInterfaces(c, 0, n, rename, pick) == Search(c.interfaces[i], n, rename, pick)
    {
      SearchInterfacesSkips(c, 0, i, n, rename, pick);
    }
  }

  /** Interfaces whose search finds nothing are passed over, in order. */
  lemma {:induction false} SearchInterfacesSkips<M>(c: ReflexClass, k: nat, i: nat, name: string, rename: (ClassName, string) -> string, pick: (JClass, string) -> Option<M>)
    requires k <= i < |c.interfaces|
    requires forall j :: k <= j < i ==> Search(c.interfaces[j], name, rename, pick).None?
    requires Search(c.interfaces[i], name, rename, pick).Some?
    ensures SearchInterfaces(c, k, name, rename, pick) == Search(c.interfaces[i], name, rename, pick)
    decreases i - k
  {
    if k < i {
      assert Search(c.interfaces[k], name, rename, pick).None?;
      SearchInterfacesSkips(c, k + 1, i, name, rename, pick);
    }
  }

  // -----------------------------------------------------------------------
  // findField

  ghost predicate DeclaresField(k: JClass, n: string) {
    exists f :: f in k.declaredFields && f.name == n
  }

  /** `savingFields.firstOrNull { it.name == field }`. */
  function OwnField(k: JClass, n: string): (r: Option<FieldInfo>)
    ensures r.Some? ==> r.value in k.declaredFields && r.value.name == n
    ensures r.Some? ==> exists i :: (0 <= i < |k.declaredFields| && k.declaredFields[i] == r.value
                                     && forall j :: 0 <= j < i ==> k.declaredFields[j].name != n)
    ensures r.None? <==> !DeclaresField(k, n)
  {
    Seqs.FirstElement(k.declaredFields, (f: FieldInfo) => f.name == n)
  }

  function FieldRename(rt: Runtime): (ClassName, string) -> string {
    (owner: ClassName, n: string) => RemapField(rt.remappers, owner, n)
  }

  /** `findField(f)`: the field found first along the search order, under
      the name as remapped for the class where it is found; `None` exactly
      when no visited class declares a field of the name it is looked up
      under there. */
  function FindField(c: ReflexClass, f: string, rt: Runtime): (r: Option<FieldInfo>)
    ensures var order := SearchOrder(c, f, FieldRename(rt));
      r.Some? ==> exists i :: (0 <= i < |order| && r.value in order[i].clazz.declaredFields && r.value.name == order[i].name
                               && r == OwnField(order[i].clazz, order[i].name)
                               && forall j :: 0 <= j < i ==> !DeclaresField(order[j].clazz, order[j].name))
    ensures var order := SearchOrder(c, f, FieldRename(rt));
      r.None? <==> forall i :: 0 <= i < |order| ==> !DeclaresField(order[i].clazz, order[i].name)
  {
    SearchIsFirstPick(c, f, FieldRename(rt), OwnField);
    Search(c, f, FieldRename(rt), OwnField)
  }

  /** The search order of `findField`, stated on the class's own fields, its
      superclass node and its interface nodes. */
  lemma FindFieldPrecedence(c: ReflexClass, f: string, rt: Runtime)
    ensures var n := RemapField(rt.remappers, c.clazz.name, f);
      DeclaresField(c.clazz, n) ==> FindField(c, f, rt) == OwnField(c.clazz, n)
    ensures var n := RemapField(rt.remappers, c.clazz.name, f);
      !DeclaresField(c.clazz, n) && c.superclass.Some? && FindField(c.superclass.value, n, rt).Some? ==>
        FindField(c, f, rt) == FindField(c.superclass.value, n, rt)
    ensures var n := RemapField(rt.remappers, c.clazz.name, f);
      forall i :: 0 <= i < |c.interfaces| && !DeclaresField(c.clazz, n)
        && (c.superclass.None? || FindField(c.superclass.value, n, rt).None?)
        && (forall j :: 0 <= j < i ==> FindField(c.interfaces[j], n, rt).None?)
        && FindField(c.interfaces[i], n, rt).Some?
        ==> FindField(c, f, rt) == FindField(c.interfaces[i], n, rt)
  {
    SearchPrecedence(c, f, FieldRename(rt), OwnField);
  }

  // -----------------------------------------------------------------------
  // compare and findMethod

  /** One position of `compare`: a null argument class matches anything;
      otherwise the boxed classes must be equal or the parameter's must be
      assignable from the argument's. */
  predicate ArgumentFits(parameter: ClassName, argument: Option<ClassName>, rt: Runtime) {
    || argument.None?
    || rt.nonPrimitive(parameter) == rt.nonPrimitive(argument.value)
    || rt.isAssignableFrom(rt.nonPrimitive(parameter), rt.nonPrimitive(argument.value))
  }

  /** The loop of `compare` from `index` on. */
  function CompareFrom(primary: seq<ClassName>, secondary: seq<Option<ClassName>>, index: nat, rt: Runtime): (b: bool)
    requires |primary| == |secondary| && index <= |primary|
    ensures b <==> forall i :: index <= i < |primary| ==> ArgumentFits(primary[i], secondary[i], rt)
    decreases |primary| - index
  {
    if index == |primary| then true
    else if !ArgumentFits(primary[index], secondary[index], rt) then false
    else CompareFrom(primary, secondary, index + 1, rt)
  }

  /** `compare(primary, secondary)`: arrays of different lengths never
      match; otherwise every position must fit. */
  function Compare(primary: seq<ClassName>, secondary: seq<Option<ClassName>>, rt: Runtime): (b: bool)
    ensures |primary| != |secondary| ==> !b
    ensures b <==> |primary| == |secondary| && forall i :: 0 <= i < |primary| ==>
      (secondary[i].None?
       || rt.nonPrimitive(primary[i]) == rt.nonPrimitive(secondary[i].value)
       || rt.isAssignableFrom(rt.nonPrimitive(primary[i]), rt.nonPrimitive(secondary[i].value)))
  {
    if |primary| != |secondary| then false else CompareFrom(primary, secondary, 0, rt)
  }

  /** A null argument at position `i` matches whatever the parameter type at
      `i` is. */
  lemma NullArgumentIsWildcard(primary: seq<ClassName>, secondary: seq<Option<ClassName>>, i: nat, t: ClassName, rt: Runtime)
    requires i < |primary| && i < |secondary|
    ensures Compare(primary, secondary[i := None], rt) == Compare(primary[i := t], secondary[i := None], rt)
  {
    var s := secondary[i := None];
    if |primary| == |secondary| {
      assert Compare(primary, s, rt) == Compare(primary[i := t], s, rt) by {
        assert forall j :: 0 <= j < |primary| && j != i ==> primary[i := t][j] == primary[j];
        assert s[i].None?;
      }
    }
  }

  ghost predicate DeclaresMethod(k: JClass, n: string, args: seq<Option<ClassName>>, rt: Runtime) {
    exists m :: m in k.declaredMethods && m.name == n && Compare(m.parameterTypes, args, rt)
  }

  /** `savingMethods.firstOrNull { it.name == method && compare(...) }`. */
  function OwnMethod(k: JClass, n: string, args: seq<Option<ClassName>>, rt: Runtime): (r: Option<MethodInfo>)
    ensures r.Some? ==> r.value in k.declaredMethods && r.value.name == n && Compare(r.value.parameterTypes, args, rt)
    ensures r.Some? ==> exists i :: (0 <= i < |k.declaredMethods| && k.declaredMethods[i] == r.value
                                     && forall j :: 0 <= j < i ==> !(k.declaredMethods[j].name == n && Compare(k.declaredMethods[j].parameterTypes, args, rt)))
    ensures r.None? <==> !DeclaresMethod(k, n, args, rt)
  {
    Seqs.FirstElement(k.declaredMethods, (m: MethodInfo) => m.name == n && Compare(m.parameterTypes, args, rt))
  }

  function MethodRename(rt: Runtime): (ClassName, string) -> string {
    (owner: ClassName, n: string) => RemapMethod(rt.remappers, owner, n)
  }

  /** `findMethod(m, *parameter)`, with `args` the classes of the arguments
      (`None` for a null argument): the first method along the search order
      whose name and parameter types match; `None` exactly when no visited
      class declares one. */
  function FindMethod(c: ReflexClass, m: string, args: seq<Option<ClassName>>, rt: Runtime): (r: Option<MethodInfo>)
    ensures var order := SearchOrder(c, m, MethodRename(rt));
      r.Some? ==> exists i :: (0 <= i < |order| && r == OwnMethod(order[i].clazz, order[i].name, args, rt)
                               && forall j :: 0 <= j < i ==> !DeclaresMethod(order[j].clazz, order[j].name, args, rt))
    ensures var order := SearchOrder(c, m, MethodRename(rt));
      r.None? <==> forall i :: 0 <= i < |order| ==> !DeclaresMethod(order[i].clazz, order[i].name, args, rt)
    ensures r.Some? ==> Compare(r.value.parameterTypes, args, rt) && |r.value.parameterTypes| == |args|
  {
    var pick := (k: JClass, n: string) => OwnMethod(k, n, args, rt);
    SearchIsFirstPick(c, m, MethodRename(rt), pick);
    Search(c, m, MethodRename(rt), pick)
  }

  // -----------------------------------------------------------------------
  // findConstructor

  /** `p.nonPrimitive().isInstance(argument)` for a non-null argument of
      class `argument`. */
  predicate IsInstance(parameter: ClassName, argument: ClassName, rt: Runtime) {
    rt.isAssignableFrom(rt.nonPrimitive(parameter), argument)
  }

  /** The `forEachIndexed` loop of `findConstructor` from `index` on. */
  function ArgumentsFitFrom(parameters: seq<ClassName>, args: seq<Option<ClassName>>, index: nat, rt: Runtime): (b: bool)
    requires |parameters| == |args| && index <= |parameters|
    ensures b <==> forall i :: index <= i < |args| ==> args[i].None? || IsInstance(parameters[i], args[i].value, rt)
    decreases |parameters| - index
  {
    if index == |parameters| then true
    else
      var checked := args[index].None? || IsInstance(parameters[index], args[index].value, rt);
      checked && ArgumentsFitFrom(parameters, args, index + 1, rt)
  }

  /** The test `findConstructor` applies to one constructor. */
  function AcceptsArguments(k: ConstructorInfo, args: seq<Option<ClassName>>, rt: Runtime): bool {
    |k.parameterTypes| == |args| && ArgumentsFitFrom(k.parameterTypes, args, 0, rt)
  }

  /** `findConstructor(*parameter)`: the first declared constructor whose
      parameter count equals the number of arguments and each of whose
      parameters accepts its argument, a null argument being accepted
      anywhere.  Only the class's own constructors are searched. */
  function FindConstructor(c: ReflexClass, args: seq<Option<ClassName>>, rt: Runtime): (r: Option<ConstructorInfo>)
    ensures r.Some? ==> r.value in c.clazz.declaredConstructors
    ensures r.Some? ==> |r.value.parameterTypes| == |args|
    ensures r.Some? ==> forall i :: 0 <= i < |args| ==> args[i].None? || IsInstance(r.value.parameterTypes[i], args[i].value, rt)
    ensures r.Some? ==> exists i :: (0 <= i < |c.clazz.declaredConstructors| && c.clazz.declaredConstructors[i] == r.value
                                     && forall j :: 0 <= j < i ==> !AcceptsArguments(c.clazz.declaredConstructors[j], args, rt))
    ensures r.None? <==> forall k :: k in c.clazz.declaredConstructors ==> !AcceptsArguments(k, args, rt)
  {
    Seqs.FirstElement(c.clazz.declaredConstructors, (k: ConstructorInfo) => AcceptsArguments(k, args, rt))
  }
}
