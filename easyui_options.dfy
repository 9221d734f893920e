/** `EasyUIOptions`: the table of named settings binders the EasyUI helpers
    look up. */
module EasyUI {
  import opened Wrappers

  /** The exception `Dictionary.Add` raises for a key already present
      (`ArgumentException`). */
  datatype AddError = DuplicateKey(name: string)

  /** The options object; `Binder` stands for `ISettingsBinder`. */
  class EasyUIOptions<Binder> {
    /** The `binders` dictionary, keyed by name (ordinal comparison). */
    var binders: map<string, Binder>

    /** A fresh options object has no binders. */
    constructor ()
      ensures binders == map[]
    {
      binders := map[];
    }

    /** `AddBinder`: `binders.Add(name, binder)`. A new name is mapped to
        `binder`; a name already present raises and leaves the table as it was. */
    method AddBinder(name: string, binder: Binder) returns (r: Outcome<AddError>)
      modifies this
      ensures r.Pass? <==> name !in old(binders)
      ensures r.Pass? ==> binders == old(binders)[name := binder]
      ensures r.Pass? ==> |binders| == |old(binders)| + 1
      ensures r.Pass? ==> forall other :: other != name ==>
                (other in binders <==> other in old(binders)) &&
                (other in binders ==> binders[other] == old(binders)[other])
      ensures r.Fail? ==> r == Fail(DuplicateKey(name)) && binders == old(binders)
    {
      if name in binders {
        r := Fail(DuplicateKey(name));
      } else {
        binders := binders[name := binder];
        r := Pass;
      }
    }
  }
}
