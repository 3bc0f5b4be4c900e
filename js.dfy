/** The JavaScript value rules the React components rely on: truthiness of string-valued
    properties, `||`, optional property access, template-literal conversion and trim(). */
module Js {

  import opened Wrappers
  import Text

  /** A property value as the components see it: absent, null, or a string. */
  datatype JsStr = Undefined | Null | Str(s: string)

  predicate Truthy(v: JsStr) {
    v.Str? && v.s != ""
  }

  /** `a || b`: the first operand when it is truthy, the second otherwise. */
  function Or(a: JsStr, b: JsStr): JsStr {
    if Truthy(a) then a else b
  }

  /** `vs` holds a truthy value before index `n`. */
  predicate SomeTruthy(vs: seq<JsStr>, n: int) {
    exists i :: 0 <= i < n && i < |vs| && Truthy(vs[i])
  }

  /** `vs[0] || vs[1] || ... || vs[|vs| - 1]`. */
  function Coalesce(vs: seq<JsStr>): (r: JsStr)
    requires vs != []
    ensures Truthy(r) <==> SomeTruthy(vs, |vs|)
    ensures SomeTruthy(vs, |vs|) ==>
      exists i :: 0 <= i < |vs| && vs[i] == r && !SomeTruthy(vs, i)
    ensures !SomeTruthy(vs, |vs|) ==> r == vs[|vs| - 1]
  {
    if |vs| == 1 then vs[0]
    else
      var rest := Coalesce(vs[1..]);
      assert forall i :: 0 <= i < |vs| - 1 ==> vs[1..][i] == vs[i + 1];
      assert !Truthy(vs[0]) && SomeTruthy(vs, |vs|) ==> exists i :: 0 <= i < |vs| && vs[i] == rest && !SomeTruthy(vs, i) by {
        if !Truthy(vs[0]) && SomeTruthy(vs, |vs|) {
          assert SomeTruthy(vs[1..], |vs| - 1);
          var k :| 0 <= k < |vs| - 1 && vs[1..][k] == rest && !SomeTruthy(vs[1..], k);
          assert vs[k + 1] == rest && !SomeTruthy(vs, k + 1);
        }
      }
      Or(vs[0], rest)
  }

  /** How `${v}` prints a value inside a template literal. */
  function ToText(v: JsStr): string {
    match v
    case Undefined => "undefined"
    case Null => "null"
    case Str(s) => s
  }

  /** An object of string-valued properties; None stands for undefined or null (falsy),
      while every object, even an empty one, is truthy. */
  type JsObject = Option<map<string, JsStr>>

  /** `o?.[k]`. */
  function Prop(o: JsObject, k: string): JsStr {
    match o
    case None => Undefined
    case Some(m) => if k in m then m[k] else Undefined
  }

  /** WhiteSpace and LineTerminator code points, which String.prototype.trim() strips. */
  predicate IsJsSpace(c: char) {
    c as int in {0x09, 0x0A, 0x0B, 0x0C, 0x0D, 0x20, 0xA0, 0x1680, 0x2028, 0x2029, 0x202F, 0x205F, 0x3000, 0xFEFF}
    || 0x2000 <= c as int <= 0x200A
  }

  function Trim(s: string): string {
    Text.Trim(s, IsJsSpace)
  }
}
