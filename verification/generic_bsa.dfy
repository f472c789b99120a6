/** Types shared by both archive families and by the wrapper.
    The engine's own header (src/genericbsa.h) is not part of this model;
    `Asset` stands for its `BsaAsset` record with the fields the modelled
    code touches. */
module GenericBsa {

  datatype Option<+T> = None | Some(value: T)

  /** One file inside an archive: its internal path plus where its payload
      lives. Only `path` is read by the modelled code; the other two fields
      make two assets with the same path distinguishable. */
  datatype Asset = Asset(path: string, size: bv32, offset: bv32)

  /** The paths of `assets`, in order. */
  function Paths(assets: seq<Asset>): (paths: seq<string>)
    ensures |paths| == |assets|
    ensures forall i :: 0 <= i < |assets| ==> paths[i] == assets[i].path
  {
    seq(|assets|, i requires 0 <= i < |assets| => assets[i].path)
  }
}
