/** The parts of the operating system the core consults: the working
    directory, which paths exist (`os.path.exists`) and which are directories
    (`os.path.isdir`, used by the authorizer). Both are uninterpreted here:
    any sets of paths are allowed. */
module Host {
  import opened Text

  datatype Host = Host(cwd: string, paths: set<string>, dirs: set<string>)

  /** `os.getcwd()` always returns an absolute path. */
  predicate Valid(h: Host) {
    |h.cwd| > 0 && h.cwd[0] == '/'
  }

  /** `os.path.join(a, b)` on POSIX for two components: an absolute `b`
      replaces `a`; otherwise a separator is inserted unless `a` is empty or
      already ends in one. */
  function Join(a: string, b: string): (r: string)
    ensures StartsWith(b, "/") ==> r == b
    ensures !StartsWith(b, "/") ==> StartsWith(r, a) && EndsWith(r, b)
    ensures |a| > 0 && a[0] == '/' ==> |r| > 0 && r[0] == '/'
  {
    if StartsWith(b, "/") then b
    else if a == [] || EndsWith(a, "/") then a + b
    else a + "/" + b
  }
}
