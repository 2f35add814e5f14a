/** The initialization marker kept in the subsystem field of a LUKS2 header. */
module Luks2 {
  const SUBSYSTEM_NAME: string := "cryptpilot"
  const SUBSYSTEM_INITIALIZING: string := "cryptpilot-initializing"

  /** What the start of a device holds: no readable LUKS2 header, or one with a subsystem string. */
  datatype Header = NoHeader | Luks2(subsystem: string)

  datatype VolumeInitState = None | Initializing | Ready

  /** `get_luks2_subsystem` and `get_init_state`. */
  function GetInitState(h: Header): VolumeInitState {
    match h
    case NoHeader => None
    case Luks2(s) =>
      if s == "" || s == "-" then None
      else if s == SUBSYSTEM_NAME then Ready
      else if s == SUBSYSTEM_INITIALIZING then Initializing
      else None
  }

  predicate IsInitialized(h: Header) {
    GetInitState(h).Ready?
  }

  /** Exactly the two marker strings count; a header of another subsystem, or none, is no volume of cryptpilot. */
  lemma MarkersExactly(h: Header)
    ensures GetInitState(h).Ready? <==> h == Luks2("cryptpilot")
    ensures GetInitState(h).Initializing? <==> h == Luks2("cryptpilot-initializing")
    ensures IsInitialized(h) <==> h == Luks2("cryptpilot")
  {
    MarkersDiffer();
    assert |SUBSYSTEM_INITIALIZING| > 1;
  }

  lemma MarkersDiffer()
    ensures IsInitialized(Luks2(SUBSYSTEM_NAME))
    ensures !IsInitialized(Luks2(SUBSYSTEM_INITIALIZING)) && !IsInitialized(NoHeader)
  {
    assert |SUBSYSTEM_INITIALIZING| != |SUBSYSTEM_NAME|;
    assert |SUBSYSTEM_NAME| > 1;
  }
}
