/** Per-target behaviour: the errno predicate `UnixIo::is_eloop`, the error
    numbers the kernels return for the cases the removal code tests, and the
    default traversal mode. */
module Platform {
  import opened Errors

  datatype Target = Linux | MacOS | FreeBSD | NetBSD | OtherUnix | Windows

  /** `UnixIo::is_eloop`: does an error from an open with `O_NOFOLLOW` mean
      that the trailing component was a symbolic link? FreeBSD reports such an
      open with EMLINK and NetBSD with EFTYPE instead of the ELOOP that POSIX
      specifies. */
  predicate IsEloop(t: Target, e: Error)
    requires !t.Windows?
  {
    match t
    case FreeBSD => RawOsError(e) == Some(ELOOP) || RawOsError(e) == Some(EMLINK)
    case NetBSD => RawOsError(e) == Some(ELOOP) || RawOsError(e) == Some(EFTYPE)
    case _ => RawOsError(e) == Some(ELOOP)
  }

  /** How many symbolic links the kernel follows while resolving one path
      before it gives up with ELOOP: MAXSYMLINKS on Linux (40) and on the
      BSD kernels and macOS (32), the reparse-point limit on Windows (63). */
  function MaxSymlinkHops(t: Target): nat {
    match t
    case Linux => 40
    case Windows => 63
    case _ => 32
  }

  /** The error an `O_NOFOLLOW` open reports when the trailing component is a
      symbolic link, as the kernels' manual pages document it. */
  function SymlinkOpenCode(t: Target): Code {
    match t
    case FreeBSD => EMLINK
    case NetBSD => EFTYPE
    case _ => ELOOP
  }

  /** The error `unlink` of a directory reports: EISDIR on Linux, EPERM
      (the POSIX choice) on the other Unix kernels, access denied on Windows. */
  function UnlinkDirCode(t: Target): Code {
    match t
    case Linux => EISDIR
    case Windows => EACCES
    case _ => EPERM
  }

  lemma EloopOnEveryTarget(t: Target)
    requires !t.Windows?
    ensures IsEloop(t, Os(ELOOP))
  {
  }

  lemma EloopFreeBSD(e: Error)
    ensures IsEloop(FreeBSD, e) <==> (e == Os(ELOOP) || e == Os(EMLINK))
  {
  }

  lemma EloopNetBSD(e: Error)
    ensures IsEloop(NetBSD, e) <==> (e == Os(ELOOP) || e == Os(EFTYPE))
  {
  }

  lemma EloopElsewhere(t: Target, e: Error)
    requires !t.Windows? && !t.FreeBSD? && !t.NetBSD?
    ensures IsEloop(t, e) <==> e == Os(ELOOP)
    ensures !IsEloop(t, Os(EMLINK)) && !IsEloop(t, Os(EFTYPE))
    ensures e.Custom? ==> !IsEloop(t, e)
  {
  }

  /** On every Unix target the predicate recognises what that target's own
      kernel returns for a symbolic link opened without following it. */
  lemma EloopRecognisesSymlinkOpen(t: Target)
    requires !t.Windows?
    ensures IsEloop(t, Os(SymlinkOpenCode(t)))
    ensures SymlinkOpenCode(t) != EISDIR
  {
  }

  datatype ParallelMode = Serial | Parallel

  /** `default_parallel_mode`: parallel only when the `parallel` feature is
      compiled in and the target is not macOS. */
  function DefaultParallelMode(parallelFeature: bool, t: Target): (m: ParallelMode)
    ensures m == Serial <==> (!parallelFeature || t == MacOS)
  {
    if parallelFeature && t != MacOS then Parallel else Serial
  }
}
