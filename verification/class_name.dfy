/**
 * An entry of the class-name completion index
 * (src-plugins/Script_Editor/fiji/scripting/ClassName.java): the key the
 * sorted completion sets order it by, the class's complete name in internal
 * form ('/'-separated) and the set of its methods. `ClassMethod` is known
 * only through its constructor argument; its ordering is taken to identify
 * methods by that text, so its TreeSet behaves as a set.
 */
module Completion {
  import opened JavaString

  /** A method entry, built from `Method.toString()`. */
  datatype ClassMethod = ClassMethod(fullName: string)

  datatype ClassName = ClassName(key: string, completeName: string, methodNames: set<ClassMethod>)

  /** `new ClassName(paramkey, name)`: both strings stored as given, no methods yet. */
  function Create(paramKey: string, name: string): (c: ClassName)
    ensures GetName(c) == paramKey && c.completeName == name
    ensures c.methodNames == {}
  {
    ClassName(paramKey, name, {})
  }

  /** `getName`: the key. */
  function GetName(c: ClassName): string
  {
    c.key
  }

  /**
   * `getCompleteName`: the stored name with every '/' turned into '.',
   * position by position.
   */
  function GetCompleteName(c: ClassName): (r: string)
    ensures |r| == |c.completeName|
    ensures '/' !in r
    ensures forall i :: 0 <= i < |r| ==> r[i] == (if c.completeName[i] == '/' then '.' else c.completeName[i])
  {
    Replace(c.completeName, '/', '.')
  }

  /** Rewriting the complete name a second time gives the same name. */
  lemma CompleteNameRewriteIdempotent(c: ClassName)
    ensures Replace(GetCompleteName(c), '/', '.') == GetCompleteName(c)
    ensures GetCompleteName(c.(completeName := GetCompleteName(c))) == GetCompleteName(c)
  {
  }

  /** A name already in dotted form is returned unchanged. */
  lemma DottedNameUnchanged(c: ClassName)
    requires '/' !in c.completeName
    ensures GetCompleteName(c) == c.completeName
  {
  }

  /** `compareTo`: the keys compared as Java strings. */
  function CompareTo(a: ClassName, b: ClassName): (r: int)
    ensures r == 0 <==> GetName(a) == GetName(b)
  {
    JavaString.CompareTo(GetName(a), GetName(b))
  }

  /** The order sees only the keys: the complete names and methods never matter. */
  lemma CompareToSeesOnlyKeys(a: ClassName, b: ClassName, a': ClassName, b': ClassName)
    requires a.key == a'.key && b.key == b'.key
    ensures CompareTo(a, b) == CompareTo(a', b')
  {
  }

  /** Swapping the entries negates the comparison, so the signs are opposite. */
  lemma CompareToAntisymmetric(a: ClassName, b: ClassName)
    ensures CompareTo(a, b) == -CompareTo(b, a)
    ensures CompareTo(a, b) < 0 <==> CompareTo(b, a) > 0
  {
    JavaString.CompareToAntisymmetric(a.key, b.key);
  }

  /** The order is a total preorder, as a sorted set requires. */
  lemma CompareToTotalPreorder(a: ClassName, b: ClassName, c: ClassName)
    ensures CompareTo(a, b) <= 0 || CompareTo(b, a) <= 0
    ensures CompareTo(a, b) <= 0 && CompareTo(b, c) <= 0 ==> CompareTo(a, c) <= 0
  {
    JavaString.CompareToTotal(a.key, b.key);
    if CompareTo(a, b) <= 0 && CompareTo(b, c) <= 0 {
      JavaString.CompareToTransitive(a.key, b.key, c.key);
    }
  }

  /**
   * `setMethodNames`: each method is added to the set of method names.
   * Nothing is removed, and nothing but the given methods is added.
   */
  method SetMethodNames(c: ClassName, methods: seq<string>) returns (r: ClassName)
    ensures r.key == c.key && r.completeName == c.completeName
    ensures c.methodNames <= r.methodNames
    ensures forall m :: m in methods ==> ClassMethod(m) in r.methodNames
    ensures forall e :: e in r.methodNames ==> e in c.methodNames || e.fullName in methods
    ensures |r.methodNames| <= |c.methodNames| + |methods|
  {
    var names := c.methodNames;
    var i := 0;
    while i < |methods|
      invariant 0 <= i <= |methods|
      invariant c.methodNames <= names
      invariant forall j :: 0 <= j < i ==> ClassMethod(methods[j]) in names
      invariant forall e :: e in names ==> e in c.methodNames || e.fullName in methods[..i]
      invariant |names| <= |c.methodNames| + i
    {
      names := names + {ClassMethod(methods[i])};
      i := i + 1;
    }
    r := c.(methodNames := names);
  }
}
