/**
 * src/core/Returns.mjs: annotating an implementation function with its
 * return type, and reading the annotation back. A JavaScript function
 * object is a heap object here; its code is identified by a number and
 * its `returns` property is a mutable field.
 */
module ReturnsAnnotation {
  import opened Wrappers

  /**
   * The `returns` property of a function: absent, a type name, or a function
   * computing the type from the signature and the instance (identified by a number).
   */
  datatype Annotation =
    | NotAnnotated
    | Named(typeName: string)
    | Computed(compute: (string, nat) -> string)

  class FnObject {
    /** The code the function runs; a clone runs the code of the function it was cloned from. */
    const behaviour: nat
    var returnsProp: Annotation

    constructor(behaviour: nat)
      ensures this.behaviour == behaviour && returnsProp == NotAnnotated
    {
      this.behaviour := behaviour;
      returnsProp := NotAnnotated;
    }

    /** cloneFunction with the clone's source recorded correctly: same code, same annotation. */
    constructor Clone(fn: FnObject)
      ensures behaviour == fn.behaviour && returnsProp == fn.returnsProp
    {
      behaviour := fn.behaviour;
      returnsProp := fn.returnsProp;
    }
  }

  /**
   * returnTypeOf: 'any' for an unannotated function, a type name verbatim,
   * and a computed annotation evaluated at (signature, instance).
   */
  function ReturnTypeOf(a: Annotation, signature: string, instance: nat): (r: string)
    ensures a.NotAnnotated? ==> r == "any"
    ensures a.Named? ==> r == a.typeName
    ensures a.Computed? ==> r == a.compute(signature, instance)
  {
    match a
    case NotAnnotated => "any"
    case Named(t) => t
    case Computed(f) => f(signature, instance)
  }

  /**
   * Returns(type, fn) as written: an unannotated function is annotated in
   * place and returned; an annotated one goes through cloneFunction, whose
   * reference to the undefined variable `body` throws a ReferenceError
   * before anything is changed.
   */
  method ReturnsAsWritten(annotation: Annotation, fn: FnObject) returns (r: Result<FnObject>)
    modifies fn
    ensures old(fn.returnsProp).NotAnnotated? ==> r == Ok(fn) && fn.returnsProp == annotation
    ensures !old(fn.returnsProp).NotAnnotated? ==> r.Err? && r.error.ReferenceError? && fn.returnsProp == old(fn.returnsProp)
  {
    if !fn.returnsProp.NotAnnotated? {
      return Err(ReferenceError("body is not defined"));
    }
    fn.returnsProp := annotation;
    return Ok(fn);
  }

  /**
   * Returns(type, fn) as evidently intended: an annotated function is left
   * alone and a fresh clone running the same code carries the new annotation.
   */
  method Returns(annotation: Annotation, fn: FnObject) returns (r: FnObject)
    modifies fn
    ensures old(fn.returnsProp).NotAnnotated? ==> r == fn
    ensures !old(fn.returnsProp).NotAnnotated? ==> fresh(r) && fn.returnsProp == old(fn.returnsProp)
    ensures r.behaviour == fn.behaviour && r.returnsProp == annotation
  {
    r := fn;
    if !fn.returnsProp.NotAnnotated? {
      r := new FnObject.Clone(fn);
    }
    r.returnsProp := annotation;
  }

  /**
   * Annotating a function twice: as written the second call throws, so the
   * function keeps its first return type.
   */
  method ReannotateAsWritten() returns (e: JsError, kept: string)
    ensures e.ReferenceError? && kept == "number"
  {
    var f := new FnObject(7);
    var first := ReturnsAsWritten(Named("number"), f);
    var second := ReturnsAsWritten(Named("bigint"), f);
    e := second.error;
    kept := ReturnTypeOf(f.returnsProp, "bigint,bigint", 0);
  }

  /**
   * Annotating a function twice with the intended cloning: the clone reports
   * the new type and the original still reports the old one.
   */
  method Reannotate() returns (original: string, clone: string)
    ensures original == "number" && clone == "bigint"
  {
    var f := new FnObject(7);
    var first := Returns(Named("number"), f);
    var second := Returns(Named("bigint"), first);
    original := ReturnTypeOf(f.returnsProp, "bigint,bigint", 0);
    clone := ReturnTypeOf(second.returnsProp, "bigint,bigint", 0);
  }
}
