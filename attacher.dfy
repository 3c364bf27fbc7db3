/**
 * The probe attacher of the exporter: the candidate catalogs, the rule that
 * names the eBPF handler for a traced function, the attach loop that tries
 * every candidate and keeps the ones whose entry and return probes both
 * attached, and the start-up dispatch between a binary path and a pid.
 *
 * The host is an input: whether a path exists, and whether bcc manages to
 * attach an entry or return uprobe to a symbol of a file. On top of that an
 * attach can only succeed when the loaded eBPF program defines the handler
 * it names.
 */
module Attacher {
  import opened Options
  import Monitor

  /** The stable FFmpeg library functions, tried first. */
  const FunctionNames: seq<string> := [
    "avcodec_send_packet",
    "avcodec_receive_frame",
    "av_packet_alloc",
    "av_packet_ref",
    "av_packet_unref",
    "av_bsf_send_packet",
    "av_bsf_receive_packet"
  ]

  /** The older names, tried in the target binary only. */
  const LegacyFunctionNames: seq<string> := [
    "jitterbuffer_put",
    "jitterbuffer_get",
    "rtp_parse_packet",
    "ff_rtp_parse_packet",
    "SrsRtpJitterBuffer::put",
    "SrsRtpJitterBuffer::get"
  ]

  /** The shared libraries tried before the binary, in this order. */
  const LibraryPaths: seq<string> := [
    "/usr/lib/x86_64-linux-gnu/libavcodec.so.58",
    "/usr/lib/x86_64-linux-gnu/libavformat.so.58",
    "/usr/lib/x86_64-linux-gnu/libavutil.so.56"
  ]

  const EntrySuffix := "_entry"
  const ReturnSuffix := "_return"

  // ---------------------------------------------------------------------------
  // Handler names
  // ---------------------------------------------------------------------------

  /** `s.replace('::', '_')`: occurrences replaced left to right, without overlap. */
  function ReplaceScope(s: string): string
    decreases |s|
  {
    if |s| >= 2 && s[0] == ':' && s[1] == ':' then "_" + ReplaceScope(s[2..])
    else if s == [] then []
    else [s[0]] + ReplaceScope(s[1..])
  }

  /** `s.replace('.', '_')`. */
  function ReplaceDots(s: string): string
    decreases |s|
  {
    if s == [] then [] else [if s[0] == '.' then '_' else s[0]] + ReplaceDots(s[1..])
  }

  /** The function name with `::` and then `.` rewritten to `_`. */
  function Sanitize(func: string): string
  {
    ReplaceDots(ReplaceScope(func))
  }

  /** The eBPF function a probe on `func` runs: `Sanitize(func)` then the suffix. */
  function HandlerName(func: string, suffix: string): string
  {
    Sanitize(func) + suffix
  }

  /** `s` holds no `::`. */
  predicate ScopeFree(s: string)
  {
    forall i :: 0 <= i < |s| - 1 ==> !(s[i] == ':' && s[i + 1] == ':')
  }

  /** `s` holds no `:` and no `.`, so the rewrite has nothing to do. */
  predicate Plain(s: string)
  {
    forall i :: 0 <= i < |s| ==> s[i] != ':' && s[i] != '.'
  }

  /** The first character after rewriting `::`. */
  lemma ReplaceScopeHead(s: string)
    requires s != []
    ensures ReplaceScope(s) != []
    ensures ReplaceScope(s)[0] == if |s| >= 2 && s[0] == ':' && s[1] == ':' then '_' else s[0]
  {
  }

  /** Rewriting `::` leaves none behind (Python's scan resumes after each match). */
  lemma {:induction false} ReplaceScopeIsScopeFree(s: string)
    ensures ScopeFree(ReplaceScope(s))
    decreases |s|
  {
    if |s| >= 2 && s[0] == ':' && s[1] == ':' {
      ReplaceScopeIsScopeFree(s[2..]);
    } else if s != [] {
      var rest := ReplaceScope(s[1..]);
      ReplaceScopeIsScopeFree(s[1..]);
      var r := [s[0]] + rest;
      forall i | 0 <= i < |r| - 1 ensures !(r[i] == ':' && r[i + 1] == ':') {
        if i == 0 {
          ReplaceScopeHead(s[1..]);
          if s[0] == ':' {
            // s[1] is not ':', or s would have started with "::"
            assert rest[0] != ':';
          }
        } else {
          assert r[i] == rest[i - 1] && r[i + 1] == rest[i];
        }
      }
    }
  }

  /** Rewriting `::` changes nothing in a string that holds none. */
  lemma {:induction false} ReplaceScopeFixesScopeFree(s: string)
    requires ScopeFree(s)
    ensures ReplaceScope(s) == s
    decreases |s|
  {
    if s != [] {
      assert ScopeFree(s[1..]) by {
        forall i | 0 <= i < |s[1..]| - 1 ensures !(s[1..][i] == ':' && s[1..][i + 1] == ':') {
          assert s[1..][i] == s[i + 1] && s[1..][i + 1] == s[i + 2];
        }
      }
      ReplaceScopeFixesScopeFree(s[1..]);
    }
  }

  /** What rewriting `.` does, character by character. */
  lemma {:induction false} ReplaceDotsAt(s: string)
    ensures |ReplaceDots(s)| == |s|
    ensures forall i :: 0 <= i < |s| ==> ReplaceDots(s)[i] == if s[i] == '.' then '_' else s[i]
    decreases |s|
  {
    if s != [] {
      ReplaceDotsAt(s[1..]);
    }
  }

  /**
   * The handler-name rewrite is idempotent, and what it leaves holds neither
   * `.` nor `::`.
   */
  lemma SanitizeIdempotent(func: string)
    ensures Sanitize(Sanitize(func)) == Sanitize(func)
    ensures ScopeFree(Sanitize(func))
    ensures forall i :: 0 <= i < |Sanitize(func)| ==> Sanitize(func)[i] != '.'
  {
    var scoped := ReplaceScope(func);
    var s := ReplaceDots(scoped);
    ReplaceScopeIsScopeFree(func);
    ReplaceDotsAt(scoped);
    ReplaceScopeFixesScopeFree(s);
    ReplaceDotsAt(s);
  }

  /** A name with neither `:` nor `.` passes through both rewrites unchanged. */
  lemma {:induction false} PlainNameKept(func: string)
    requires Plain(func)
    ensures ReplaceScope(func) == func && ReplaceDots(func) == func
    ensures Sanitize(func) == func
    decreases |func|
  {
    if func != [] {
      assert Plain(func[1..]) by {
        forall i | 0 <= i < |func[1..]| ensures func[1..][i] != ':' && func[1..][i] != '.' {
          assert func[1..][i] == func[i + 1];
        }
      }
      PlainNameKept(func[1..]);
      assert [func[0]] + func[1..] == func;
    }
  }

  /** A prefix with no `:` passes through the `::` rewrite unchanged. */
  lemma {:induction false} ReplaceScopeAfterPlain(a: string, t: string)
    requires Plain(a)
    ensures ReplaceScope(a + t) == a + ReplaceScope(t)
    decreases |a|
  {
    if a == [] {
      assert a + t == t;
    } else {
      assert (a + t)[0] == a[0] && (a + t)[1..] == a[1..] + t;
      assert Plain(a[1..]) by {
        forall i | 0 <= i < |a[1..]| ensures a[1..][i] != ':' && a[1..][i] != '.' {
          assert a[1..][i] == a[i + 1];
        }
      }
      ReplaceScopeAfterPlain(a[1..], t);
      assert [a[0]] + a[1..] == a;
    }
  }

  /** `::member` rewrites to `_member`. */
  lemma ScopeHead(member: string)
    requires Plain(member)
    ensures ReplaceScope("::" + member) == "_" + member
  {
    var scoped := "::" + member;
    assert scoped[0] == ':' && scoped[1] == ':' && scoped[2..] == member;
    PlainNameKept(member);
  }

  lemma PlainJoin(a: string, b: string)
    requires Plain(a) && Plain(b)
    ensures Plain(a + b)
  {
    var y := a + b;
    forall i | 0 <= i < |y| ensures y[i] != ':' && y[i] != '.' {
      if i < |a| { assert y[i] == a[i]; } else { assert y[i] == b[i - |a|]; }
    }
  }

  /** `cls::member` with plain parts rewrites its `::` to `_`. */
  lemma ScopedRewrite(cls: string, member: string)
    requires Plain(cls) && Plain(member)
    ensures ReplaceScope(cls + "::" + member) == cls + ("_" + member)
  {
    assert cls + "::" + member == cls + ("::" + member);
    ReplaceScopeAfterPlain(cls, "::" + member);
    ScopeHead(member);
  }

  /** A qualified name `cls::member` gives the handler name `cls_member` plus the suffix. */
  lemma ScopedHandlerName(cls: string, member: string, suffix: string)
    requires Plain(cls) && Plain(member)
    ensures HandlerName(cls + "::" + member, suffix) == cls + "_" + member + suffix
  {
    ScopedRewrite(cls, member);
    var joined := cls + ("_" + member);
    assert Plain("_");
    PlainJoin("_", member);
    PlainJoin(cls, "_" + member);
    PlainNameKept(joined);
    assert joined == cls + "_" + member;
  }

  /** For example `SrsRtpJitterBuffer::put` gives `SrsRtpJitterBuffer_put_entry`. */
  lemma ScopedExample()
    ensures HandlerName("SrsRtpJitterBuffer::put", EntrySuffix) == "SrsRtpJitterBuffer_put_entry"
  {
    ScopedHandlerName("SrsRtpJitterBuffer", "put", EntrySuffix);
    assert "SrsRtpJitterBuffer" + "::" + "put" == "SrsRtpJitterBuffer::put";
    assert "SrsRtpJitterBuffer" + "_" + "put" + EntrySuffix == "SrsRtpJitterBuffer_put_entry";
  }

  /** The handler names of the two `SrsRtpJitterBuffer` members start with `S`. */
  lemma ScopedLegacyHandler(f: string, suffix: string)
    requires f == "SrsRtpJitterBuffer::put" || f == "SrsRtpJitterBuffer::get"
    ensures |HandlerName(f, suffix)| == 22 + |suffix| && HandlerName(f, suffix)[0] == 'S'
  {
    var member := if f == "SrsRtpJitterBuffer::put" then "put" else "get";
    ScopedHandlerName("SrsRtpJitterBuffer", member, suffix);
    assert "SrsRtpJitterBuffer" + "::" + member == f;
  }

  // ---------------------------------------------------------------------------
  // Candidates and the attach loop
  // ---------------------------------------------------------------------------

  /** A (file, symbol) pair the attacher tries. */
  datatype Candidate = Candidate(path: string, func: string)

  /** The `path:func` string recorded for an attached candidate. */
  function CandidateLabel(c: Candidate): string
  {
    c.path + ":" + c.func
  }

  /** The labels of the candidates, in the same order. */
  function CandidateLabels(cs: seq<Candidate>): (labels: seq<string>)
    ensures |labels| == |cs|
    ensures forall i :: 0 <= i < |cs| ==> labels[i] == CandidateLabel(cs[i])
    decreases |cs|
  {
    if cs == [] then [] else CandidateLabels(cs[..|cs| - 1]) + [CandidateLabel(cs[|cs| - 1])]
  }

  /**
   * The host's answers: `os.path.exists`, and whether bcc attaches an entry
   * (`attach_uprobe`) or a return (`attach_uretprobe`) probe to a symbol of a
   * file, given that the handler exists.
   */
  datatype Host = Host(
    pathExists: string -> bool,
    entryAttaches: (string, string) -> bool,
    returnAttaches: (string, string) -> bool)

  /** The candidates `funcs` in the file `path`. */
  function Across(path: string, funcs: seq<string>): seq<Candidate>
    decreases |funcs|
  {
    if funcs == [] then [] else Across(path, funcs[..|funcs| - 1]) + [Candidate(path, funcs[|funcs| - 1])]
  }

  /** The stable names in each library of `libs` that exists, library by library. */
  function LibraryCandidates(libs: seq<string>, pathExists: string -> bool): seq<Candidate>
    decreases |libs|
  {
    if libs == [] then []
    else
      var lib := libs[|libs| - 1];
      LibraryCandidates(libs[..|libs| - 1], pathExists) + if pathExists(lib) then Across(lib, FunctionNames) else []
  }

  /** Every candidate, in the order the attacher tries them. */
  function Candidates(binary: string, pathExists: string -> bool): seq<Candidate>
  {
    LibraryCandidates(LibraryPaths, pathExists) + Across(binary, FunctionNames + LegacyFunctionNames)
  }

  /** Both the entry and the return probe of `c` attach. */
  predicate Attaches(c: Candidate, host: Host, program: set<string>)
  {
    && HandlerName(c.func, EntrySuffix) in program
    && host.entryAttaches(c.path, c.func)
    && HandlerName(c.func, ReturnSuffix) in program
    && host.returnAttaches(c.path, c.func)
  }

  /** The candidates of `cs` that attach, in order. */
  function Filter(cs: seq<Candidate>, host: Host, program: set<string>): seq<Candidate>
    decreases |cs|
  {
    if cs == [] then []
    else
      var c := cs[|cs| - 1];
      Filter(cs[..|cs| - 1], host, program) + if Attaches(c, host, program) then [c] else []
  }

  /** What `attach_uprobes(binary)` records. */
  function Attached(binary: string, host: Host, program: set<string>): seq<Candidate>
  {
    Filter(Candidates(binary, host.pathExists), host, program)
  }

  lemma CandidateLabelsAppend(cs: seq<Candidate>, c: Candidate)
    ensures CandidateLabels(cs + [c]) == CandidateLabels(cs) + [CandidateLabel(c)]
  {
    assert (cs + [c])[..|cs|] == cs;
  }

  lemma FilterSnoc(cs: seq<Candidate>, c: Candidate, host: Host, program: set<string>)
    ensures Filter(cs + [c], host, program) ==
            Filter(cs, host, program) + if Attaches(c, host, program) then [c] else []
  {
    assert (cs + [c])[..|cs|] == cs;
  }

  lemma AcrossSnoc(path: string, funcs: seq<string>, j: nat)
    requires j < |funcs|
    ensures Across(path, funcs[..j + 1]) == Across(path, funcs[..j]) + [Candidate(path, funcs[j])]
  {
    assert funcs[..j + 1][..j] == funcs[..j];
  }

  /**
   * `attach_uprobes`: each existing library with the stable names, then the
   * binary with the stable and legacy names; a candidate is recorded when
   * its entry and then its return probe attach, and a failure only moves on
   * to the next candidate. The result is true iff something was recorded.
   */
  method AttachUprobes(binary: string, host: Host, program: set<string>)
    returns (attached: seq<string>, ok: bool)
    ensures attached == CandidateLabels(Attached(binary, host, program))
    ensures ok <==> attached != []
  {
    attached := [];
    var libs := LibraryPaths;
    var i := 0;
    while i < |libs|
      invariant 0 <= i <= |libs|
      invariant attached == CandidateLabels(Filter(LibraryCandidates(libs[..i], host.pathExists), host, program))
    {
      var lib := libs[i];
      ghost var done := LibraryCandidates(libs[..i], host.pathExists);
      LibraryCandidatesSnoc(libs, i, host.pathExists);
      if host.pathExists(lib) {
        attached := AttachAll(lib, FunctionNames, host, program, done, attached);
      } else {
        assert done + [] == done;
      }
      i := i + 1;
    }
    assert libs[..i] == LibraryPaths;
    attached := AttachAll(binary, FunctionNames + LegacyFunctionNames, host, program,
                          LibraryCandidates(LibraryPaths, host.pathExists), attached);
    ok := attached != [];
  }

  lemma LibraryCandidatesSnoc(libs: seq<string>, i: nat, pathExists: string -> bool)
    requires i < |libs|
    ensures LibraryCandidates(libs[..i + 1], pathExists) ==
            LibraryCandidates(libs[..i], pathExists) + if pathExists(libs[i]) then Across(libs[i], FunctionNames) else []
  {
    assert libs[..i + 1][..i] == libs[..i];
  }

  /**
   * One inner loop of `attach_uprobes`: try every name of `funcs` in the file
   * `path`, appending to `attached`, which records the candidates `done`
   * tried before.
   */
  method AttachAll(path: string, funcs: seq<string>, host: Host, program: set<string>,
                   ghost done: seq<Candidate>, attached0: seq<string>)
    returns (attached: seq<string>)
    requires attached0 == CandidateLabels(Filter(done, host, program))
    ensures attached == CandidateLabels(Filter(done + Across(path, funcs), host, program))
  {
    attached := attached0;
    var j := 0;
    assert done + Across(path, funcs[..0]) == done;
    while j < |funcs|
      invariant 0 <= j <= |funcs|
      invariant attached == CandidateLabels(Filter(done + Across(path, funcs[..j]), host, program))
    {
      var func := funcs[j];
      TryStep(done, path, funcs, j, host, program);
      if HandlerName(func, EntrySuffix) in program && host.entryAttaches(path, func) {
        if HandlerName(func, ReturnSuffix) in program && host.returnAttaches(path, func) {
          attached := attached + [path + ":" + func];
        }
      }
      j := j + 1;
    }
    assert funcs[..j] == funcs;
  }

  /** One turn of the inner loop: trying `funcs[j]` in `path` after `done`. */
  lemma TryStep(done: seq<Candidate>, path: string, funcs: seq<string>, j: nat, host: Host, program: set<string>)
    requires j < |funcs|
    ensures var c := Candidate(path, funcs[j]);
            CandidateLabels(Filter(done + Across(path, funcs[..j + 1]), host, program)) ==
            CandidateLabels(Filter(done + Across(path, funcs[..j]), host, program)) +
            if Attaches(c, host, program) then [path + ":" + funcs[j]] else []
  {
    var c := Candidate(path, funcs[j]);
    var tried := done + Across(path, funcs[..j]);
    AcrossSnoc(path, funcs, j);
    assert done + Across(path, funcs[..j + 1]) == tried + [c];
    FilterSnoc(tried, c, host, program);
    if Attaches(c, host, program) {
      CandidateLabelsAppend(Filter(tried, host, program), c);
      assert CandidateLabel(c) == path + ":" + funcs[j];
    } else {
      assert Filter(tried, host, program) + [] == Filter(tried, host, program);
    }
  }

  // ---------------------------------------------------------------------------
  // Properties of the attach loop
  // ---------------------------------------------------------------------------

  /** A candidate is recorded iff it is tried and both its probes attach. */
  lemma {:induction false} FilterMembership(cs: seq<Candidate>, host: Host, program: set<string>)
    ensures forall c :: c in Filter(cs, host, program) <==> c in cs && Attaches(c, host, program)
    decreases |cs|
  {
    if cs != [] {
      var init, last := cs[..|cs| - 1], cs[|cs| - 1];
      FilterMembership(init, host, program);
      assert cs == init + [last];
    }
  }

  /** Filtering a concatenation filters each part: failures anywhere skip only themselves. */
  lemma {:induction false} FilterAppend(a: seq<Candidate>, b: seq<Candidate>, host: Host, program: set<string>)
    ensures Filter(a + b, host, program) == Filter(a, host, program) + Filter(b, host, program)
    decreases |b|
  {
    if b == [] {
      assert a + b == a;
    } else {
      var init, last := b[..|b| - 1], b[|b| - 1];
      FilterAppend(a, init, host, program);
      assert a + b == (a + init) + [last];
      FilterSnoc(a + init, last, host, program);
      FilterSnoc(init, last, host, program);
      assert b == init + [last];
    }
  }

  /** With candidates A (fails), B (attaches), C (fails), D (attaches), exactly B and D are recorded. */
  lemma FourCandidates(a: Candidate, b: Candidate, c: Candidate, d: Candidate, host: Host, program: set<string>)
    requires !Attaches(a, host, program) && Attaches(b, host, program)
    requires !Attaches(c, host, program) && Attaches(d, host, program)
    ensures Filter([a, b, c, d], host, program) == [b, d]
  {
    assert [] + [a] == [a];
    FilterSnoc([], a, host, program);
    assert Filter([a], host, program) == [];
    assert [a] + [b] == [a, b];
    FilterSnoc([a], b, host, program);
    assert Filter([a, b], host, program) == [b];
    assert [a, b] + [c] == [a, b, c];
    FilterSnoc([a, b], c, host, program);
    assert Filter([a, b, c], host, program) == [b];
    assert [a, b, c] + [d] == [a, b, c, d];
    FilterSnoc([a, b, c], d, host, program);
  }

  lemma {:induction false} AcrossMembership(path: string, funcs: seq<string>)
    ensures forall c :: c in Across(path, funcs) <==> c.path == path && c.func in funcs
    decreases |funcs|
  {
    if funcs != [] {
      var init := funcs[..|funcs| - 1];
      AcrossMembership(path, init);
      assert funcs == init + [funcs[|funcs| - 1]];
    }
  }

  /** The library candidates are the stable names in the libraries that exist. */
  lemma {:induction false} LibraryCandidatesMembership(libs: seq<string>, pathExists: string -> bool)
    ensures forall c :: c in LibraryCandidates(libs, pathExists) <==>
                        c.path in libs && pathExists(c.path) && c.func in FunctionNames
    decreases |libs|
  {
    if libs != [] {
      var init, lib := libs[..|libs| - 1], libs[|libs| - 1];
      LibraryCandidatesMembership(init, pathExists);
      AcrossMembership(lib, FunctionNames);
      assert libs == init + [lib];
    }
  }

  /**
   * `path:func` is recorded iff both probes attach and it is a candidate:
   * a stable name in a library that exists, or any name in the binary.
   */
  lemma AttachedMembership(binary: string, host: Host, program: set<string>, c: Candidate)
    ensures c in Attached(binary, host, program) <==>
            && Attaches(c, host, program)
            && ((c.path in LibraryPaths && host.pathExists(c.path) && c.func in FunctionNames)
                || (c.path == binary && c.func in FunctionNames + LegacyFunctionNames))
  {
    FilterMembership(Candidates(binary, host.pathExists), host, program);
    LibraryCandidatesMembership(LibraryPaths, host.pathExists);
    AcrossMembership(binary, FunctionNames + LegacyFunctionNames);
  }

  /** The attacher reports failure iff no candidate has both probes attach. */
  lemma NothingAttachedIff(binary: string, host: Host, program: set<string>)
    ensures Attached(binary, host, program) == [] <==>
            forall c :: c in Candidates(binary, host.pathExists) ==> !Attaches(c, host, program)
  {
    var cs := Candidates(binary, host.pathExists);
    FilterMembership(cs, host, program);
    if Attached(binary, host, program) != [] {
      var c := Attached(binary, host, program)[0];
      assert c in Attached(binary, host, program);
    }
  }

  /** A library path that does not exist contributes nothing and stops nothing. */
  lemma MissingLibrarySkipped(binary: string, host: Host, program: set<string>, lib: string)
    requires !host.pathExists(lib) && lib != binary
    ensures forall c :: c in Attached(binary, host, program) ==> c.path != lib
  {
    forall c | c in Attached(binary, host, program) ensures c.path != lib {
      AttachedMembership(binary, host, program, c);
    }
  }

  // ---------------------------------------------------------------------------
  // The candidates against the handlers the C program defines
  // ---------------------------------------------------------------------------

  /** The handler names the C program defines. */
  function ProgramNames(): set<string>
  {
    Monitor.Program().Keys
  }

  /** The legacy names for which the C program has no handler under the derived name. */
  const Unhandled: seq<string> := ["rtp_parse_packet", "ff_rtp_parse_packet",
                                   "SrsRtpJitterBuffer::put", "SrsRtpJitterBuffer::get"]

  // The stable and legacy names are plain and at least 13 characters long;
  // with a suffix of at least 6, every handler name they derive is longer
  // than the 16 characters of `rtp_parse_return`.
  // The literals are checked in groups of at most four, one lemma per group,
  // which keeps each proof obligation about literal strings small.

  /** The first four stable names are plain. */
  lemma PlainLibraryNamesA(f: string)
    requires f == "avcodec_send_packet" || f == "avcodec_receive_frame" || f == "av_packet_alloc" || f == "av_packet_ref"
    ensures Plain(f) && 13 <= |f|
  {
  }

  /** The other three stable names are plain. */
  lemma PlainLibraryNamesB(f: string)
    requires f == "av_packet_unref" || f == "av_bsf_send_packet" || f == "av_bsf_receive_packet"
    ensures Plain(f) && 13 <= |f|
  {
  }

  /** The four legacy names without `::` are plain. */
  lemma PlainLegacyNames(f: string)
    requires f == "jitterbuffer_put" || f == "jitterbuffer_get" || f == "rtp_parse_packet" || f == "ff_rtp_parse_packet"
    ensures Plain(f) && 13 <= |f|
  {
  }

  /** Every stable name is plain. */
  lemma StableNamesPlain(f: string)
    requires f in FunctionNames
    ensures Plain(f) && 13 <= |f|
  {
    assert f == "avcodec_send_packet" || f == "avcodec_receive_frame" || f == "av_packet_alloc" || f == "av_packet_ref"
        || f == "av_packet_unref" || f == "av_bsf_send_packet" || f == "av_bsf_receive_packet";
    if f == "avcodec_send_packet" || f == "avcodec_receive_frame" || f == "av_packet_alloc" || f == "av_packet_ref" {
      PlainLibraryNamesA(f);
    } else {
      PlainLibraryNamesB(f);
    }
  }

  /** Every candidate name is plain, except the two `SrsRtpJitterBuffer` members. */
  lemma CandidateNameForms(f: string)
    requires f in FunctionNames + LegacyFunctionNames
    ensures f == "SrsRtpJitterBuffer::put" || f == "SrsRtpJitterBuffer::get" || (Plain(f) && 13 <= |f|)
  {
    if f in FunctionNames {
      StableNamesPlain(f);
    } else {
      assert f in LegacyFunctionNames;
      if f == "jitterbuffer_put" || f == "jitterbuffer_get" || f == "rtp_parse_packet" || f == "ff_rtp_parse_packet" {
        PlainLegacyNames(f);
      }
    }
  }

  /** A plain name's handler is the name followed by the suffix. */
  lemma PlainHandlerName(f: string, suffix: string)
    requires Plain(f)
    ensures HandlerName(f, suffix) == f + suffix
  {
    PlainNameKept(f);
  }

  /**
   * Enough of the shape of the 20 handler names to rule out the names a
   * candidate derives without comparing against each literal: every handler
   * name is at least 15 characters long and starts with `j`, `r` or `a`, and
   * the two starting with `r` (`rtp_parse_entry`, `rtp_parse_return`) are at
   * most 16 long. A derived name starting with `S` or `f`, or with `r` and
   * longer than 16, is therefore no handler name.
   */
  predicate HandlerShaped(n: string)
  {
    && 15 <= |n|
    && (n[0] == 'j' || n[0] == 'r' || n[0] == 'a')
    && (n[0] == 'r' ==> |n| <= 16)
  }

  /** Every handler name of the C program has that shape. */
  lemma ProgramNamesShape()
    ensures forall n :: n in Monitor.Program() ==> HandlerShaped(n)
  {
  }

  /** The stable names followed by either suffix are handler names. */
  lemma StableHandlersListed(f: string)
    requires f in FunctionNames
    ensures f + EntrySuffix in ProgramNames() && f + ReturnSuffix in ProgramNames()
  {
    if f == "avcodec_send_packet" {
      assert f + EntrySuffix == "avcodec_send_packet_entry";
      assert f + ReturnSuffix == "avcodec_send_packet_return";
    } else if f == "avcodec_receive_frame" {
      assert f + EntrySuffix == "avcodec_receive_frame_entry";
      assert f + ReturnSuffix == "avcodec_receive_frame_return";
    } else if f == "av_packet_alloc" {
      assert f + EntrySuffix == "av_packet_alloc_entry";
      assert f + ReturnSuffix == "av_packet_alloc_return";
    } else if f == "av_packet_ref" {
      assert f + EntrySuffix == "av_packet_ref_entry";
      assert f + ReturnSuffix == "av_packet_ref_return";
    } else if f == "av_packet_unref" {
      assert f + EntrySuffix == "av_packet_unref_entry";
      assert f + ReturnSuffix == "av_packet_unref_return";
    } else if f == "av_bsf_send_packet" {
      assert f + EntrySuffix == "av_bsf_send_packet_entry";
      assert f + ReturnSuffix == "av_bsf_send_packet_return";
    } else {
      assert f + EntrySuffix == "av_bsf_receive_packet_entry";
      assert f + ReturnSuffix == "av_bsf_receive_packet_return";
    }
  }

  /** Every stable name has both of its handlers. */
  lemma StableNamesHandled(f: string)
    requires f in FunctionNames
    ensures HandlerName(f, EntrySuffix) in ProgramNames() && HandlerName(f, ReturnSuffix) in ProgramNames()
  {
    StableNamesPlain(f);
    PlainHandlerName(f, EntrySuffix);
    PlainHandlerName(f, ReturnSuffix);
    StableHandlersListed(f);
  }

  /** jitterbuffer_put and jitterbuffer_get followed by either suffix are handler names. */
  lemma JitterbufferHandlersListed(f: string)
    requires f == "jitterbuffer_put" || f == "jitterbuffer_get"
    ensures f + EntrySuffix in ProgramNames() && f + ReturnSuffix in ProgramNames()
  {
    if f == "jitterbuffer_put" {
      assert f + EntrySuffix == "jitterbuffer_put_entry";
      assert f + ReturnSuffix == "jitterbuffer_put_return";
    } else {
      assert f + EntrySuffix == "jitterbuffer_get_entry";
      assert f + ReturnSuffix == "jitterbuffer_get_return";
    }
  }

  /** jitterbuffer_put and jitterbuffer_get have both of their handlers. */
  lemma JitterbufferHandled(f: string)
    requires f == "jitterbuffer_put" || f == "jitterbuffer_get"
    ensures HandlerName(f, EntrySuffix) in ProgramNames() && HandlerName(f, ReturnSuffix) in ProgramNames()
  {
    PlainLegacyNames(f);
    PlainHandlerName(f, EntrySuffix);
    PlainHandlerName(f, ReturnSuffix);
    JitterbufferHandlersListed(f);
  }

  /** No handler name starts with `S` or `f`, or starts with `r` and is longer than 16. */
  lemma NotHandlerName(n: string)
    requires n != [] && (n[0] == 'S' || n[0] == 'f' || (n[0] == 'r' && |n| > 16))
    ensures n !in ProgramNames()
  {
    ProgramNamesShape();
    assert !HandlerShaped(n);
  }

  /** The four unhandled legacy names derive no entry handler the program defines. */
  lemma UnhandledHaveNoEntry(f: string)
    ensures f in Unhandled ==> HandlerName(f, EntrySuffix) !in ProgramNames()
  {
    if f == "SrsRtpJitterBuffer::put" || f == "SrsRtpJitterBuffer::get" {
      ScopedLegacyHandler(f, EntrySuffix);
      NotHandlerName(HandlerName(f, EntrySuffix));
    } else if f == "rtp_parse_packet" || f == "ff_rtp_parse_packet" {
      PlainLegacyNames(f);
      PlainHandlerName(f, EntrySuffix);
      NotHandlerName(f + EntrySuffix);
    }
  }

  /**
   * Against the C program, exactly the stable names and jitterbuffer_put/get
   * have both handlers: `rtp_parse_packet` derives `rtp_parse_packet_entry`
   * while the program defines `rtp_parse_entry`, and `ff_rtp_parse_packet`
   * and the two `SrsRtpJitterBuffer` members have no handler at all.
   */
  lemma HandledCandidates(f: string)
    requires f in FunctionNames + LegacyFunctionNames
    ensures HandlerName(f, EntrySuffix) in ProgramNames() && HandlerName(f, ReturnSuffix) in ProgramNames()
            <==> f in FunctionNames || f == "jitterbuffer_put" || f == "jitterbuffer_get"
  {
    if f in FunctionNames {
      StableNamesHandled(f);
    } else if f == "jitterbuffer_put" || f == "jitterbuffer_get" {
      JitterbufferHandled(f);
    } else {
      assert f in Unhandled;
      UnhandledHaveNoEntry(f);
    }
  }

  /** So, whatever the host, those four legacy names are never recorded. */
  lemma UnhandledNeverAttached(binary: string, host: Host)
    ensures forall c :: c in Attached(binary, host, ProgramNames()) ==> c.func !in Unhandled
  {
    forall c | c in Attached(binary, host, ProgramNames()) ensures c.func !in Unhandled {
      AttachedMembership(binary, host, ProgramNames(), c);
      UnhandledHaveNoEntry(c.func);
    }
  }

  /** And the C handlers `rtp_parse_entry`/`rtp_parse_return` are named by no candidate. */
  lemma RtpParseHandlersUnreachable(f: string)
    requires f in FunctionNames + LegacyFunctionNames
    ensures HandlerName(f, EntrySuffix) != "rtp_parse_entry"
    ensures HandlerName(f, ReturnSuffix) != "rtp_parse_return"
  {
    CandidateNameForms(f);
    if f == "SrsRtpJitterBuffer::put" || f == "SrsRtpJitterBuffer::get" {
      ScopedLegacyHandler(f, EntrySuffix);
      ScopedLegacyHandler(f, ReturnSuffix);
    } else {
      // both derived names are longer than the handlers' own
      PlainHandlerName(f, EntrySuffix);
      PlainHandlerName(f, ReturnSuffix);
    }
  }

  // ---------------------------------------------------------------------------
  // load_ebpf_program
  // ---------------------------------------------------------------------------

  /** Python truthiness of an optional string: present and not empty. */
  predicate GivenPath(p: Option<string>)
  {
    p.Some? && p.value != ""
  }

  /** Python truthiness of an optional pid: present and not 0. */
  predicate GivenPid(pid: Option<int>)
  {
    pid.Some? && pid.value != 0
  }

  /** The outcome of `load_ebpf_program`, with the binary it attached to and what it attached. */
  datatype Load = Load(ok: bool, target: Option<string>, attached: seq<Candidate>)

  /**
   * `load_ebpf_program`. `sourceFound` says whether the C source sits beside
   * the exporter, `compiles` whether reading and compiling it succeeded, and
   * `exeOf` is what `get_binary_path` resolves for a pid.
   */
  function LoadEbpfProgram(sourceFound: bool, compiles: bool, binary: Option<string>, pid: Option<int>,
                           exeOf: int -> Option<string>, host: Host): (r: Load)
    ensures r.ok ==> r.target.Some? && r.attached == Attached(r.target.value, host, ProgramNames())
    ensures !r.ok ==> r.target == None && r.attached == []
    ensures r.ok && GivenPath(binary) ==> r.target == binary
    ensures r.ok && !GivenPath(binary) ==> GivenPid(pid) && r.target == exeOf(pid.value)
  {
    if !sourceFound || !compiles then Load(false, None, [])
    else if GivenPath(binary) then Load(true, binary, Attached(binary.value, host, ProgramNames()))
    else if GivenPid(pid) then
      var exe := exeOf(pid.value);
      if GivenPath(exe) then Load(true, exe, Attached(exe.value, host, ProgramNames()))
      else Load(false, None, [])
    else Load(false, None, [])
  }

  /**
   * It fails iff the source is missing, does not compile, or neither a
   * binary nor a pid with a resolvable executable was given.
   */
  lemma LoadFailsIff(sourceFound: bool, compiles: bool, binary: Option<string>, pid: Option<int>,
                     exeOf: int -> Option<string>, host: Host)
    ensures !LoadEbpfProgram(sourceFound, compiles, binary, pid, exeOf, host).ok <==>
            || !sourceFound || !compiles
            || (!GivenPath(binary) && (!GivenPid(pid) || !GivenPath(exeOf(pid.value))))
  {
  }

  /** A binary path takes precedence: the pid and its executable are then ignored. */
  lemma BinaryTakesPrecedence(binary: Option<string>, pid1: Option<int>, pid2: Option<int>,
                              exeOf1: int -> Option<string>, exeOf2: int -> Option<string>, host: Host)
    requires GivenPath(binary)
    ensures LoadEbpfProgram(true, true, binary, pid1, exeOf1, host) ==
            LoadEbpfProgram(true, true, binary, pid2, exeOf2, host)
    ensures LoadEbpfProgram(true, true, binary, pid1, exeOf1, host).target == binary
  {
  }

  /**
   * The attacher's verdict is ignored: with a binary given and a host on
   * which nothing attaches, loading still reports success.
   */
  lemma LoadIgnoresAttachFailure(binary: string)
    requires binary != ""
    ensures var host := Host(_ => true, (_, _) => false, (_, _) => false);
            var r := LoadEbpfProgram(true, true, Some(binary), None, _ => None, host);
            r.ok && r.attached == []
  {
    var host := Host(_ => true, (_, _) => false, (_, _) => false);
    NothingAttachedIff(binary, host, ProgramNames());
  }
}
