// `.cloudsc` names: `<target>.cloudsc` stands for `target`.
module SidecarName {
  const SUFFIX := ".cloudsc"

  predicate IsSidecarName(name: string) {
    |SUFFIX| <= |name| && name[|name| - |SUFFIX|..] == SUFFIX
  }

  function TargetOf(name: string): string
    requires IsSidecarName(name)
  {
    name[..|name| - |SUFFIX|]
  }

  lemma SidecarNameIs(target: string)
    ensures IsSidecarName(target + SUFFIX) && TargetOf(target + SUFFIX) == target
  {
  }
}
