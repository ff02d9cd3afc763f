/** The option checks of the script's entry point (bloodhound-steroids.py lines
    180-236): which module runs, or which exit status ends the process before
    any database write. */
module Dispatcher {
  import opened Wrappers

  /** The parsed command line. `noArgs` is true when the script got no argument
      at all; an option that was not given is None. */
  datatype Options = Options(
    noArgs: bool,
    list: bool,
    moduleName: Option<string>,
    domain: Option<string>,
    userFiles: Option<seq<string>>,
    ntFile: Option<string>,
    computerFiles: Option<seq<string>>,
    host: Option<string>)

  /** How the entry point ends: an exit status before any module runs, or the
      module to run with its files and domain. */
  datatype Decision =
    | Exit(code: int)
    | SamePassUsers(userFiles: seq<string>, domain: string)
    | SamePassDump(ntFile: string, domain: string)
    | SameLocalAdmin(computerFiles: seq<string>, domain: string)

  const KnownModules: seq<string> := ["samepass", "samelocaladmin"]

  /** `--domain` was given and is not empty. */
  predicate DomainGiven(o: Options) {
    o.domain.Some? && |o.domain.value| > 0
  }

  /** Everything the `samepass` module needs: a host, a domain, and exactly one
      of user lists and a dump file. */
  predicate SamePassReady(o: Options) {
    && !o.noArgs && !o.list
    && o.moduleName == Some("samepass")
    && o.host.Some?
    && DomainGiven(o)
    && (o.userFiles.Some? <==> o.ntFile.None?)
  }

  /** Everything the `samelocaladmin` module needs: a host, a domain and at least
      one computer list. */
  predicate SameLocalAdminReady(o: Options) {
    && !o.noArgs && !o.list
    && o.moduleName == Some("samelocaladmin")
    && o.host.Some?
    && DomainGiven(o)
    && o.computerFiles.Some?
  }

  /** The checks in source order: no arguments, `--list`, unknown module, missing
      host, then the module's own requirements. */
  function Dispatch(o: Options): (d: Decision)
    ensures d.Exit? ==> d.code == 0 || d.code == 1
    ensures d == Exit(0) <==> !o.noArgs && o.list
    ensures d == Exit(1) <==> !(!o.noArgs && o.list) && !SamePassReady(o) && !SameLocalAdminReady(o)
    ensures d.SamePassUsers? <==> SamePassReady(o) && o.userFiles.Some?
    ensures d.SamePassDump? <==> SamePassReady(o) && o.ntFile.Some?
    ensures d.SameLocalAdmin? <==> SameLocalAdminReady(o)
    ensures d.SamePassUsers? ==> d.userFiles == o.userFiles.value && d.domain == o.domain.value
    ensures d.SamePassDump? ==> d.ntFile == o.ntFile.value && d.domain == o.domain.value
    ensures d.SameLocalAdmin? ==> d.computerFiles == o.computerFiles.value && d.domain == o.domain.value
  {
    if o.noArgs then Exit(1)
    else if o.list then Exit(0)
    else if o.moduleName.None? || o.moduleName.value !in KnownModules then Exit(1)
    else if o.host.None? then Exit(1)
    else if o.moduleName.value == "samepass" then
      if !DomainGiven(o) then Exit(1)
      else if o.userFiles.None? && o.ntFile.None? then Exit(1)
      else if o.userFiles.Some? && o.ntFile.Some? then Exit(1)
      else if o.userFiles.Some? then SamePassUsers(o.userFiles.value, o.domain.value)
      else SamePassDump(o.ntFile.value, o.domain.value)
    else
      if !DomainGiven(o) then Exit(1)
      else if o.computerFiles.None? then Exit(1)
      else SameLocalAdmin(o.computerFiles.value, o.domain.value)
  }
}
