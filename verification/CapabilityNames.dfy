/** Which capabilities there are and which a container starts with, by their numbers in capabilities(7). */
module CapabilityNames {
  import opened Numerals
  import opened ByteOrder
  import opened Capabilities

  /** The capabilities of Linux in the order of their numbers. */
  const LINUX: seq<string> :=
    [ "CHOWN", "DAC_OVERRIDE", "DAC_READ_SEARCH", "FOWNER", "FSETID", "KILL", "SETGID", "SETUID", "SETPCAP", "LINUX_IMMUTABLE",
      "NET_BIND_SERVICE", "NET_BROADCAST", "NET_ADMIN", "NET_RAW", "IPC_LOCK", "IPC_OWNER", "SYS_MODULE", "SYS_RAWIO", "SYS_CHROOT",
      "SYS_PTRACE", "SYS_PACCT", "SYS_ADMIN", "SYS_BOOT", "SYS_NICE", "SYS_RESOURCE", "SYS_TIME", "SYS_TTY_CONFIG", "MKNOD", "LEASE",
      "AUDIT_WRITE", "AUDIT_CONTROL", "SETFCAP", "MAC_OVERRIDE", "MAC_ADMIN", "SYSLOG", "WAKE_ALARM", "BLOCK_SUSPEND", "AUDIT_READ",
      "PERFMON", "BPF", "CHECKPOINT_RESTORE" ]

  /** The bits of the mask a80425fb. */
  const DEFAULT_NUMBERS: set<nat> := { 0, 1, 3, 4, 5, 6, 7, 8, 10, 13, 18, 27, 29, 31 }

  lemma SupportedIsKnown(i: nat)
    requires i < |SUPPORTED|
    ensures SUPPORTED[i] in LINUX
  {
  }

  lemma KnownIsSupported(i: nat)
    requires i < |LINUX|
    ensures LINUX[i] in SUPPORTED
  {
  }

  /** The names accepted are, up to case and one prefix, exactly those of the capabilities of Linux. */
  lemma SupportedAreLinux(s: string)
    ensures IsSupported(s) <==> Normal(s) in LINUX
  {
    hide Normal, LINUX, SUPPORTED;
    var x := Normal(s);
    if x in SUPPORTED {
      var i :| 0 <= i < |SUPPORTED| && SUPPORTED[i] == x;
      SupportedIsKnown(i);
    }
    if x in LINUX {
      var i :| 0 <= i < |LINUX| && LINUX[i] == x;
      KnownIsSupported(i);
    }
  }

  lemma NumberOfDefault(i: nat) returns (n: nat)
    requires i < |DEFAULTS|
    ensures n in DEFAULT_NUMBERS && n < |LINUX| && LINUX[n] == DEFAULTS[i]
  {
    n := [0, 1, 4, 3, 27, 13, 6, 7, 31, 8, 10, 18, 5, 29][i];
  }

  lemma DefaultOfNumber(n: nat) returns (i: nat)
    requires n in DEFAULT_NUMBERS
    ensures i < |DEFAULTS| && n < |LINUX| && LINUX[n] == DEFAULTS[i]
  {
    i := match n case 0 => 0 case 1 => 1 case 4 => 2 case 3 => 3 case 27 => 4 case 13 => 5 case 6 => 6 case 7 => 7
      case 31 => 8 case 8 => 9 case 10 => 10 case 18 => 11 case 5 => 12 case _ => 13;
  }

  /** A container without lists of its own starts with the capabilities of those numbers. */
  lemma DefaultsAre(x: string)
    ensures x in Effective(None) <==> exists n: nat :: n in DEFAULT_NUMBERS && n < |LINUX| && LINUX[n] == x
  {
    hide LINUX, DEFAULTS, DEFAULT_NUMBERS;
    if x in Effective(None) {
      var i :| 0 <= i < |DEFAULTS| && DEFAULTS[i] == x;
      var n := NumberOfDefault(i);
    }
    if n: nat :| n in DEFAULT_NUMBERS && n < |LINUX| && LINUX[n] == x {
      var i := DefaultOfNumber(n);
    }
  }
}
