/** starlark/types/terraform.go: the `tf` global. It holds the provider
    collection and one settable field, the state backend. The provider
    collection is known here only by its length (`Len`), the backend only by
    the identity it is given, and the Terraform version string is a
    parameter. */
module TerraformRoot {
  import opened Base

  /** A `*Backend` as far as this model needs it. */
  datatype Backend = Backend(id: nat)

  /** A value a script assigns to `tf.backend`: a backend, or anything else,
      known by its `Type()` name. */
  datatype Assigned = IsBackend(backend: Backend) | NotBackend(typeName: string)

  /** What `Terraform.Attr` answers. */
  datatype Answer =
    | VersionString(version: string)
    | ProviderCollection
    | StoredBackend(backend: Backend)
    | NoneValue

  /** The two kinds of error `SetField` returns: Starlark's `NoSuchAttrError`
      and a plain formatted error. */
  datatype SetFieldError = NoSuchAttr(msg: string) | Unexpected(msg: string)

  class Terraform {
    /** The field `b`: `None` stands for the nil pointer. */
    var backend: Option<Backend>
    /** `p.Len()`: how many providers the collection holds. It is fixed when
        the global is made; providers added to the collection later are not
        followed, so `Truth` keeps the answer it had at that point. */
    const providerCount: nat

    /** `MakeTerraform`: no backend yet. */
    constructor (providerCount: nat)
      ensures backend == None && this.providerCount == providerCount
    {
      backend := None;
      this.providerCount := providerCount;
    }

    /** `AttrNames`: the three fields a script can read; `Attr` answers
        `None` for every name outside this list. */
    function AttrNames(): (names: seq<string>)
      ensures names == ["provider", "backend", "version"]
    {
      ["provider", "backend", "version"]
    }

    /** `Attr`: the version string, the provider collection, the backend if
        one is set; `None`, never an error, for anything else. */
    function Attr(name: string, tfVersion: string): (r: Answer)
      reads this
      ensures r == VersionString(tfVersion) <==> name == "version"
      ensures r == ProviderCollection <==> name == "provider"
      ensures r.StoredBackend? <==> name == "backend" && backend.Some?
      ensures r.StoredBackend? ==> backend == Some(r.backend)
      ensures r == NoneValue <==> name !in AttrNames() || (name == "backend" && backend == None)
    {
      match name
      case "version" => VersionString(tfVersion)
      case "provider" => ProviderCollection
      case "backend" => if backend.None? then NoneValue else StoredBackend(backend.value)
      case _ => NoneValue
    }

    /** `SetField`: only `backend` is settable, and only to a backend; a
        refused assignment leaves the field as it was. */
    method SetField(name: string, val: Assigned) returns (err: Option<SetFieldError>)
      modifies this
      ensures name != "backend" ==>
                err == Some(NoSuchAttr("terraform has no ." + name + " field or method")) && backend == old(backend)
      ensures name == "backend" && val.NotBackend? ==>
                err == Some(Unexpected("unexpected value " + val.typeName + " at " + name)) && backend == old(backend)
      ensures name == "backend" && val.IsBackend? ==> err == None && backend == Some(val.backend)
      ensures err == None ==> forall v :: Attr("backend", v) == StoredBackend(val.backend)
    {
      if name != "backend" {
        return Some(NoSuchAttr("terraform has no ." + name + " field or method"));
      }
      match val
      case IsBackend(b) =>
        backend := Some(b);
        return None;
      case NotBackend(t) =>
        return Some(Unexpected("unexpected value " + t + " at " + name));
    }

    /** `Hash`: `tf` is never hashable. */
    function Hash(): (h: Result<bv32, string>)
      ensures h.Err? && h.error == "unhashable type: Terraform"
    {
      Err("unhashable type: Terraform")
    }

    /** `Truth`: `tf` is truthy once it holds a provider. */
    function Truth(): (b: bool)
      ensures b <==> providerCount > 0
    {
      providerCount != 0
    }
  }
}
