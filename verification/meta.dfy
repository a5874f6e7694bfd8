/** The `//META` header of an FDS input: which surfaces the 1D wall
    elements use, or the grid and single surface of a 3D run (src/fds/meta.rs). */
module Meta {
  import opened Wrappers
  import opened Surfaces
  import Text

  datatype Meta =
    | OneDimensional(surfaceIds: seq<nat>)
    | ThreeDimensional(x: nat, y: nat, z: nat, surfaceId: nat)

  /** Resolves every surface name in order, failing on the first unknown one. */
  function ResolveSurfaces(names: seq<string>, surfaces: SurfaceList): (r: Result<seq<nat>>)
    ensures r.Ok? <==> forall k :: 0 <= k < |names| ==> FindSurfaceIndex(surfaces, names[k]).Some?
    ensures r.Ok? ==> |r.value| == |names|
                      && forall k :: 0 <= k < |names| ==> Some(r.value[k]) == FindSurfaceIndex(surfaces, names[k])
  {
    if |names| == 0 then Ok([])
    else
      match FindSurfaceIndex(surfaces, names[0])
      case None => Err("Could not find SURF wit ID = \"" + names[0] + "\".")
      case Some(i) =>
        var rest :- ResolveSurfaces(names[1..], surfaces);
        Ok([i] + rest)
  }

  /** `Meta::try_new`. With dimensions, a second surface is an error and an
      empty surface list panics (`meta[0]`); the three dimensions must parse
      as `usize`; every surface name must exist. */
  function TryNew(dimensions: Option<(string, string, string)>, meta: seq<string>, surfaces: SurfaceList): (r: Result<Meta>)
    requires dimensions.Some? && |meta| <= 1 ==> |meta| == 1
    ensures dimensions.None? ==>
              (r.Ok? <==> forall k :: 0 <= k < |meta| ==> FindSurfaceIndex(surfaces, meta[k]).Some?)
              && (r.Ok? ==> r.value.OneDimensional? && |r.value.surfaceIds| == |meta|
                            && forall k :: 0 <= k < |meta| ==> Some(r.value.surfaceIds[k]) == FindSurfaceIndex(surfaces, meta[k]))
    ensures dimensions.Some? ==>
              var (x, y, z) := dimensions.value;
              (r.Ok? <==> |meta| == 1 && Text.ParseNat(x).Some? && Text.ParseNat(y).Some? && Text.ParseNat(z).Some?
                          && FindSurfaceIndex(surfaces, meta[0]).Some?)
              && (r.Ok? ==> r.value == ThreeDimensional(Text.ParseNat(x).value, Text.ParseNat(y).value,
                                                         Text.ParseNat(z).value, FindSurfaceIndex(surfaces, meta[0]).value))
  {
    match dimensions
    case Some((xs, ys, zs)) =>
      if |meta| > 1 then Err("Multiple surfaces in 3D are not supported.")
      else
        var name := meta[0];
        var x :- OkOr(Text.ParseNat(xs), "Failed to parse x value \"" + xs + "\".");
        var y :- OkOr(Text.ParseNat(ys), "Failed to parse y value \"" + ys + "\".");
        var z :- OkOr(Text.ParseNat(zs), "Failed to parse z value \"" + zs + "\".");
        var id :- OkOr(FindSurfaceIndex(surfaces, name), "Could not find SURF wit ID = \"" + name + "\".");
        Ok(ThreeDimensional(x, y, z, id))
    case None =>
      var ids :- ResolveSurfaces(meta, surfaces);
      Ok(OneDimensional(ids))
  }
}
