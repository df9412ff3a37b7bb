/** Task signatures: the hash of a task from its base hash and the hashes of the tasks it depends on, and the
  * second computation of the same hashes from the data written to a signature file.
  */
module Signatures {
  import opened Common
  import opened Sorting
  import D = DependencyClosure

  type Tid = string

  // ---- Strings ----------------------------------------------------------------------------------

  predicate At(needle: string, s: string, i: nat) {
    i + |needle| <= |s| && s[i..i + |needle|] == needle
  }

  /** The first place at or after i where the needle stands; |s| if there is none. */
  function Find(needle: string, s: string, i: nat): (r: nat)
    requires i <= |s|
    ensures i <= r <= |s|
    ensures r < |s| && needle != [] ==> At(needle, s, r)
    ensures forall k :: i <= k < r ==> !At(needle, s, k)
    decreases |s| - i
  {
    if i == |s| || At(needle, s, i) then i else Find(needle, s, i + 1)
  }

  /** "needle in s", for a needle that is not empty. */
  predicate Contains(needle: string, s: string) {
    exists i :: 0 <= i <= |s| && At(needle, s, i)
  }

  const DOT_PART := "/./"

  /** f.split("/./")[1] */
  function SecondPart(f: string): string
    requires Contains(DOT_PART, f)
  {
    var first := Find(DOT_PART, f, 0);
    if first + 3 <= |f| then f[first + 3..Find(DOT_PART, f, first + 3)] else ""
  }

  /** What follows the last slash. */
  function Basename(f: string): (r: string)
    ensures '/' !in r
  {
    if f == [] then []
    else if f[|f| - 1] == '/' then []
    else Basename(f[..|f| - 1]) + [f[|f| - 1]]
  }

  function CleanPath(f: string): string {
    if Contains(DOT_PART, f) then "./" + SecondPart(f) else Basename(f)
  }

  predicate CleanLe(a: (string, string), b: (string, string)) {
    StrLe(CleanPath(a.0), CleanPath(b.0))
  }

  // ---- What is fixed while hashes are computed --------------------------------------------------

  /** The task graph with everything that goes into the hashes: base hashes, the recipe-and-task name of each
    * task, which dependencies the ignore list keeps, file checksums, which tasks are nostamp and the uuid
    * each would draw, and the taint files. */
  datatype Tasks = Tasks(deps: map<Tid, set<Tid>>, base: map<Tid, string>, pnid: map<Tid, string>,
                         kept: set<(Tid, Tid)>, checksums: map<Tid, seq<(string, string)>>, nostamp: set<Tid>,
                         uuid: map<Tid, string>, taintFile: map<Tid, string>)
  {
    predicate Complete() {
      && base.Keys == pnid.Keys == uuid.Keys == deps.Keys
      && forall t, d :: t in deps && d in deps[t] ==> d in deps
    }

    ghost function KeptDeps(tid: Tid): set<Tid>
      requires tid in deps
    {
      set d | d in deps[tid] && (tid, d) in kept
    }

    /** The taint a task ends up with. */
    function Taint(tid: Tid): Option<string>
      requires tid in uuid
    {
      if tid in taintFile && taintFile[tid] != "" then Some(taintFile[tid])
      else if tid in nostamp then Some("nostamp:" + uuid[tid])
      else None
    }

    function Files(tid: Tid): seq<(string, string)> {
      if tid in checksums then checksums[tid] else []
    }
  }

  /** The dependencies that count, in the order given, each with its recipe-and-task name. */
  function Pairs(t: Tasks, tid: Tid, order: seq<Tid>): (r: seq<(string, Tid)>)
    requires forall d :: d in order ==> d in t.pnid
    ensures forall p :: p in r <==> p.1 in order && (tid, p.1) in t.kept && p.0 == t.pnid[p.1]
  {
    if order == [] then []
    else
      var front, d := Pairs(t, tid, order[..|order| - 1]), order[|order| - 1];
      if (tid, d) in t.kept then front + [(t.pnid[d], d)] else front
  }

  function DepHashes(pairs: seq<(string, Tid)>, hashes: map<Tid, string>): string
    requires forall p :: p in pairs ==> p.1 in hashes
  {
    if pairs == [] then "" else DepHashes(pairs[..|pairs| - 1], hashes) + hashes[pairs[|pairs| - 1].1]
  }

  function FileText(files: seq<(string, string)>): string {
    if files == [] then ""
    else
      var (f, cs) := files[|files| - 1];
      FileText(files[..|files| - 1])
      + if cs == "" then "" else (if Contains(DOT_PART, f) then "./" + SecondPart(f) else "") + cs
  }

  lemma FileTextNext(start: string, files: seq<(string, string)>, i: nat)
    requires i < |files|
    ensures var (f, cs) := files[i];
            start + FileText(files[..i + 1]) ==
            if cs == "" then start + FileText(files[..i])
            else if Contains(DOT_PART, f) then start + FileText(files[..i]) + ("./" + SecondPart(f)) + cs
            else start + FileText(files[..i]) + cs
  {
    assert files[..i + 1][..i] == files[..i];
    var (f, cs) := files[i];
    var front, dot := FileText(files[..i]), if Contains(DOT_PART, f) then "./" + SecondPart(f) else "";
    assert start + (front + (dot + cs)) == start + front + dot + cs;
    assert dot == "" ==> dot + cs == cs;
    assert front + "" == front;
  }

  const NOSTAMP := "nostamp:"

  function TaintText(taint: Option<string>): string {
    match taint
    case None => ""
    case Some(x) => if StartsWith(x, NOSTAMP) then x[|NOSTAMP|..] else x
  }

  /** The text behind a task hash. */
  function TaskText(base: string, pairs: seq<(string, Tid)>, hashes: map<Tid, string>,
                    files: seq<(string, string)>, taint: Option<string>): string
    requires forall p :: p in pairs ==> p.1 in hashes
  {
    SortPermutes(PairLe, pairs);
    SameMembers(Sort(PairLe, pairs), pairs);
    base + DepHashes(Sort(PairLe, pairs), hashes) + FileText(Sort(CleanLe, files)) + TaintText(taint)
  }

  // ---- What the text tells ----------------------------------------------------------------------

  /** A taint stands at the end of the text, without "nostamp:" if it starts with it. */
  lemma TaintEnds(base: string, pairs: seq<(string, Tid)>, hashes: map<Tid, string>, files: seq<(string, string)>,
                  x: string)
    requires forall p :: p in pairs ==> p.1 in hashes
    ensures TaskText(base, pairs, hashes, files, Some(x)) ==
            TaskText(base, pairs, hashes, files, None)
            + if |x| >= 8 && x[..8] == "nostamp:" then x[8..] else x
  {
    SortPermutes(PairLe, pairs);
    SameMembers(Sort(PairLe, pairs), pairs);
    assert |NOSTAMP| == 8;
    var front := base + DepHashes(Sort(PairLe, pairs), hashes) + FileText(Sort(CleanLe, files));
    assert front + "" == front;
  }

  lemma {:induction false} DepHashesTell(pairs: seq<(string, Tid)>, a: map<Tid, string>, b: map<Tid, string>)
    requires forall p :: p in pairs ==> p.1 in a && p.1 in b && |a[p.1]| == |b[p.1]|
    ensures |DepHashes(pairs, a)| == |DepHashes(pairs, b)|
    ensures DepHashes(pairs, a) == DepHashes(pairs, b) <==> forall p :: p in pairs ==> a[p.1] == b[p.1]
  {
    if pairs != [] {
      var front, last := pairs[..|pairs| - 1], pairs[|pairs| - 1];
      DepHashesTell(front, a, b);
      SameEnds(DepHashes(front, a), a[last.1], DepHashes(front, b), b[last.1]);
      assert pairs == front + [last];
    }
  }

  /** With base hashes of one length, and hashes of the dependencies too, as hex digests have, the text tells
    * the base hash, the hash of every dependency that counts, and what the taint adds: a change of one of them
    * is a change of the text. */
  lemma TaskTextTells(base: string, base': string, pairs: seq<(string, Tid)>, a: map<Tid, string>,
                      b: map<Tid, string>, files: seq<(string, string)>, taint: Option<string>,
                      taint': Option<string>)
    requires |base| == |base'| && forall p :: p in pairs ==> p.1 in a && p.1 in b && |a[p.1]| == |b[p.1]|
    ensures TaskText(base, pairs, a, files, taint) == TaskText(base', pairs, b, files, taint') <==>
            base == base' && (forall p :: p in pairs ==> a[p.1] == b[p.1]) && TaintText(taint) == TaintText(taint')
  {
    SortPermutes(PairLe, pairs);
    var sorted, rest := Sort(PairLe, pairs), FileText(Sort(CleanLe, files));
    SameMembers(sorted, pairs);
    DepHashesTell(sorted, a, b);
    var d, e := DepHashes(sorted, a), DepHashes(sorted, b);
    SameEnds(base, d, base', e);
    SameEnds(base + d, rest, base' + e, rest);
    SameEnds(base + d + rest, TaintText(taint), base' + e + rest, TaintText(taint'));
  }

  /** Forcing a task, by a taint file that is not a nostamp text, changes what is hashed for it unless that
    * text was added before. */
  lemma ForcedTask(t: Tasks, tid: Tid, x: string, pairs: seq<(string, Tid)>, hashes: map<Tid, string>)
    requires t.Complete() && tid in t.deps && x != "" && !StartsWith(x, NOSTAMP)
    requires forall p :: p in pairs ==> p.1 in hashes
    ensures var forced := t.(taintFile := t.taintFile[tid := x]);
            TaskText(t.base[tid], pairs, hashes, t.Files(tid), t.Taint(tid))
            == TaskText(t.base[tid], pairs, hashes, t.Files(tid), forced.Taint(tid)) <==>
            (if tid in t.taintFile && t.taintFile[tid] != "" then
               t.taintFile[tid] == x || t.taintFile[tid] == NOSTAMP + x
             else tid in t.nostamp && t.uuid[tid] == x)
  {
    var forced := t.(taintFile := t.taintFile[tid := x]);
    TaskTextTells(t.base[tid], t.base[tid], pairs, hashes, hashes, t.Files(tid), t.Taint(tid), forced.Taint(tid));
    var u := NOSTAMP + t.uuid[tid];
    assert u[|NOSTAMP|..] == t.uuid[tid] && StartsWith(u, NOSTAMP);
    if tid in t.taintFile {
      var y := t.taintFile[tid];
      assert StartsWith(y, NOSTAMP) ==> y == NOSTAMP + y[|NOSTAMP|..];
      assert (NOSTAMP + x)[|NOSTAMP|..] == x && StartsWith(NOSTAMP + x, NOSTAMP);
    }
  }

  /** With checksums of one length a change of one is a change of the text. */
  lemma {:induction false} FileTextTells(a: seq<(string, string)>, b: seq<(string, string)>)
    requires |a| == |b|
    requires forall i :: 0 <= i < |a| ==> a[i].0 == b[i].0 && |a[i].1| == |b[i].1|
    ensures |FileText(a)| == |FileText(b)| && (FileText(a) == FileText(b) <==> a == b)
  {
    if a != [] {
      var k := |a| - 1;
      var dot := if Contains(DOT_PART, a[k].0) then "./" + SecondPart(a[k].0) else "";
      FileTextTells(a[..k], b[..k]);
      assert a == a[..k] + [a[k]] && b == b[..k] + [b[k]];
      if a[k].1 != "" {
        SameEnds(dot, a[k].1, dot, b[k].1);
        SameEnds(FileText(a[..k]), dot + a[k].1, FileText(b[..k]), dot + b[k].1);
      } else {
        SameEnds(FileText(a[..k]), "", FileText(b[..k]), "");
      }
    }
  }

  // ---- The generator ----------------------------------------------------------------------------

  /** The fields of SignatureGeneratorBasic that the hashes go through. */
  class SignatureGeneratorBasic {
    const t: Tasks
    const hash: string -> string
    var basehash: map<Tid, string>
    var runtaskdeps: map<Tid, seq<(string, Tid)>>
    var file_checksum_values: map<Tid, seq<(string, string)>>
    var taints: map<Tid, string>
    var taskhash: map<Tid, string>

    constructor (t: Tasks, hash: string -> string)
      ensures this.t == t && this.hash == hash && taskhash == map[] && taints == map[]
    {
      this.t, this.hash := t, hash;
      basehash, runtaskdeps, file_checksum_values, taints, taskhash := map[], map[], map[], map[], map[];
    }

    /** Nothing but its own taint is ever recorded for a task. */
    ghost predicate TaintsRight()
      reads this`taints
    {
      forall tid :: tid in taints ==> tid in t.uuid && t.Taint(tid) == Some(taints[tid])
    }

    function TaintNow(tid: Tid): Option<string>
      reads this`taints
    {
      if tid in taints then Some(taints[tid]) else None
    }

    /** The text of a taint file that is not empty is recorded over anything else; without one a nostamp task
      * has its uuid, and any other task nothing. */
    predicate Tainted(tid: Tid)
      requires tid in t.uuid
      reads this`taints
    {
      if tid in t.taintFile && t.taintFile[tid] != "" then tid in taints && taints[tid] == t.taintFile[tid]
      else if tid in t.nostamp then tid in taints && taints[tid] == NOSTAMP + t.uuid[tid]
      else tid !in taints
    }

    /** Everything for the hash of a task is in place. */
    ghost predicate Prepared(tid: Tid, order: seq<Tid>)
      reads this
    {
      && t.Complete() && tid in t.deps
      && (forall d :: d in order ==> d in t.pnid)
      && tid in basehash && basehash[tid] == t.base[tid]
      && tid in runtaskdeps && runtaskdeps[tid] == Pairs(t, tid, order)
      && (forall p :: p in runtaskdeps[tid] ==> p.1 in taskhash)
      && tid in file_checksum_values && file_checksum_values[tid] == t.Files(tid)
      && TaintNow(tid) == t.Taint(tid)
    }

    method PrepDeps(tid: Tid, order: seq<Tid>) returns (ok: bool)
      requires t.Complete() && forall d :: d in order ==> d in t.deps
      modifies this`runtaskdeps
      ensures ok <==> forall d :: d in order && (tid, d) in t.kept ==> d in taskhash
      ensures ok ==> tid in runtaskdeps && runtaskdeps[tid] == Pairs(t, tid, order)
      ensures ok ==> forall p :: p in runtaskdeps[tid] ==> p.1 in taskhash
    {
      runtaskdeps := runtaskdeps[tid := []];
      var i := 0;
      while i < |order|
        invariant i <= |order|
        invariant tid in runtaskdeps && runtaskdeps[tid] == Pairs(t, tid, order[..i])
        invariant forall p :: p in runtaskdeps[tid] ==> p.1 in taskhash
        invariant forall d :: d in order[..i] && (tid, d) in t.kept ==> d in taskhash
      {
        var dep := order[i];
        assert order[..i + 1][..i] == order[..i] && order[..i + 1] == order[..i] + [dep];
        if (tid, dep) in t.kept {
          if dep !in taskhash {
            return false;
          }
          runtaskdeps := runtaskdeps[tid := runtaskdeps[tid] + [(t.pnid[dep], dep)]];
        }
        i := i + 1;
      }
      assert order[..|order|] == order;
      ok := true;
    }

    method PrepTaint(tid: Tid)
      requires t.Complete() && tid in t.deps && TaintsRight()
      modifies this`taints
      ensures TaintsRight() && TaintNow(tid) == t.Taint(tid) && Tainted(tid)
    {
      if tid in t.nostamp && !(tid in taints && StartsWith(taints[tid], NOSTAMP)) {
        taints := taints[tid := NOSTAMP + t.uuid[tid]];
      }
      if tid in t.taintFile && t.taintFile[tid] != "" {
        taints := taints[tid := t.taintFile[tid]];
      }
    }

    /** Fails, as the fatal error does, exactly when a dependency that counts has no hash yet. */
    method PrepTaskhash(tid: Tid, order: seq<Tid>) returns (ok: bool)
      requires t.Complete() && tid in t.deps && TaintsRight() && forall d :: d in order ==> d in t.deps
      modifies this`basehash, this`runtaskdeps, this`file_checksum_values, this`taints
      ensures TaintsRight()
      ensures ok <==> forall d :: d in order && (tid, d) in t.kept ==> d in taskhash
      ensures ok ==> Prepared(tid, order) && Tainted(tid)
    {
      basehash := basehash[tid := t.base[tid]];
      file_checksum_values := file_checksum_values[tid := []];
      ok := PrepDeps(tid, order);
      if !ok {
        return;
      }
      file_checksum_values := file_checksum_values[tid := t.Files(tid)];
      PrepTaint(tid);
    }

    method GetTaskhash(tid: Tid, ghost order: seq<Tid>) returns (h: string)
      requires Prepared(tid, order)
      modifies this`taskhash
      ensures taskhash == old(taskhash)[tid := h]
      ensures h == hash(TaskText(t.base[tid], Pairs(t, tid, order), old(taskhash), t.Files(tid), t.Taint(tid)))
    {
      var data := AddDeps(basehash[tid], runtaskdeps[tid], taskhash);
      data := AddFiles(data, Sort(CleanLe, file_checksum_values[tid]));
      if tid in taints {
        data := data + if StartsWith(taints[tid], NOSTAMP) then taints[tid][|NOSTAMP|..] else taints[tid];
      } else {
        assert data == data + "";
      }
      h := hash(data);
      taskhash := taskhash[tid := h];
    }

    static method AddDeps(start: string, pairs: seq<(string, Tid)>, hashes: map<Tid, string>) returns (data: string)
      requires forall p :: p in pairs ==> p.1 in hashes
      ensures forall p :: p in Sort(PairLe, pairs) ==> p.1 in hashes
      ensures data == start + DepHashes(Sort(PairLe, pairs), hashes)
    {
      SortPermutes(PairLe, pairs);
      SameMembers(Sort(PairLe, pairs), pairs);
      data := AddSorted(start, Sort(PairLe, pairs), hashes);
    }

    static method AddSorted(start: string, deps: seq<(string, Tid)>, hashes: map<Tid, string>) returns (data: string)
      requires forall p :: p in deps ==> p.1 in hashes
      ensures data == start + DepHashes(deps, hashes)
    {
      data := start;
      for i := 0 to |deps|
        invariant data == start + DepHashes(deps[..i], hashes)
      {
        assert deps[..i + 1][..i] == deps[..i];
        data := data + hashes[deps[i].1];
      }
      assert deps[..|deps|] == deps;
    }

    static method AddFiles(start: string, files: seq<(string, string)>) returns (data: string)
      ensures data == start + FileText(files)
    {
      data := start;
      for i := 0 to |files|
        invariant data == start + FileText(files[..i])
      {
        FileTextNext(start, files, i);
        var (f, cs) := files[i];
        if cs != "" {
          if Contains(DOT_PART, f) {
            data := data + ("./" + SecondPart(f));
          }
          data := data + cs;
        }
      }
      assert files[..|files|] == files;
    }

    /** Every hash so far is the one the graph gives. */
    ghost predicate HashesRight(rank: map<Tid, nat>)
      requires t.Complete() && Ranked(t, rank)
      reads this`taskhash
    {
      AllRight(t, rank, hash, taskhash)
    }

    method HashOne(tid: Tid, order: seq<Tid>, ghost rank: map<Tid, nat>) returns (ok: bool)
      requires t.Complete() && Ranked(t, rank) && TaintsRight() && HashesRight(rank)
      requires tid in t.deps && Orders(order, t.deps[tid])
      modifies this
      ensures TaintsRight() && HashesRight(rank)
      ensures ok <==> forall d :: d in order && (tid, d) in t.kept ==> d in old(taskhash)
      ensures taskhash.Keys == old(taskhash.Keys) + if ok then {tid} else {}
    {
      ok := PrepTaskhash(tid, order);
      if ok {
        RightNext(t, rank, hash, taskhash, tid, order);
        var h := GetTaskhash(tid, order);
      }
    }

    /** The next task of the run queue. */
    method HashNext(order: seq<(Tid, seq<Tid>)>, i: nat, ghost rank: map<Tid, nat>) returns (ok: bool)
      requires t.Complete() && Ranked(t, rank) && TaintsRight() && HashesRight(rank)
      requires i < |order| && order[i].0 in t.deps && Orders(order[i].1, t.deps[order[i].0])
      requires Respects(t, order[..i]) && taskhash.Keys == Firsts(order, i)
      modifies this
      ensures TaintsRight() && HashesRight(rank)
      ensures ok <==> Respects(t, order[..i + 1])
      ensures ok ==> taskhash.Keys == Firsts(order, i + 1)
    {
      RespectsNext(t, order, i);
      FirstsNext(order, i);
      ok := HashOne(order[i].0, order[i].1, rank);
    }

    /** Hashes tasks in the order the run queue brings them. It ends without the fatal error exactly when
      * each task comes after the dependencies that count, and then each hash is the one the graph gives. */
    method HashAll(order: seq<(Tid, seq<Tid>)>, ghost rank: map<Tid, nat>) returns (ok: bool)
      requires t.Complete() && Ranked(t, rank) && taskhash == map[] && TaintsRight()
      requires forall i :: 0 <= i < |order| ==> order[i].0 in t.deps && Orders(order[i].1, t.deps[order[i].0])
      modifies this
      ensures ok <==> Respects(t, order)
      ensures ok ==> taskhash.Keys == Firsts(order, |order|)
      ensures forall tid :: tid in taskhash ==> tid in t.deps && taskhash[tid] == TaskHash(t, rank, hash, tid)
    {
      ok := true;
      for i := 0 to |order|
        invariant ok && TaintsRight() && Respects(t, order[..i])
        invariant HashesRight(rank) && taskhash.Keys == Firsts(order, i)
      {
        ok := HashNext(order, i, rank);
        if !ok {
          RespectsFront(t, order, i + 1);
          return;
        }
      }
      assert order[..|order|] == order;
    }

    /** What dump_sigtask writes for a task that has been prepared; file is the taint file read again. */
    method DumpSigtask(tid: Tid, ghost order: seq<Tid>, file: Option<string>) returns (data: SigData)
      requires Prepared(tid, order)
      ensures data == Dump(t.base[tid], Pairs(t, tid, order), taskhash, t.Files(tid), t.Taint(tid), file)
    {
      var runtaskhashes := DumpHashes(runtaskdeps[tid], taskhash);
      var files := DumpFiles(Sort(CleanLe, file_checksum_values[tid]));
      var taint: Option<string> := None;
      if file.Some? && file.value != "" {
        taint := file;
      }
      if tid in taints && Contains(NOSTAMP, taints[tid]) {
        taint := Some(taints[tid]);
      }
      data := SigData(basehash[tid], PairNames(Sort(PairLe, runtaskdeps[tid])), files, runtaskhashes, taint);
    }

    static method DumpHashes(pairs: seq<(string, Tid)>, hashes: map<Tid, string>) returns (dumped: map<string, string>)
      requires forall p :: p in pairs ==> p.1 in hashes
      ensures dumped == RunTaskHashes(pairs, hashes)
    {
      dumped := map[];
      var i := 0;
      while i < |pairs|
        invariant i <= |pairs|
        invariant dumped == RunTaskHashes(pairs[..i], hashes)
      {
        assert pairs[..i + 1][..i] == pairs[..i];
        dumped := dumped[pairs[i].0 := hashes[pairs[i].1]];
        i := i + 1;
      }
      assert pairs[..|pairs|] == pairs;
    }

    static method DumpFiles(sorted: seq<(string, string)>) returns (files: seq<(string, string)>)
      ensures files == DumpedFiles(sorted)
    {
      files := [];
      var i := 0;
      while i < |sorted|
        invariant i <= |sorted|
        invariant files == DumpedFiles(sorted[..i])
      {
        var (f, cs) := sorted[i];
        DumpedNext(sorted[..i], sorted[i]);
        assert sorted[..i + 1] == sorted[..i] + [sorted[i]];
        if Contains(DOT_PART, f) {
          files := files + [("./" + SecondPart(f), cs)];
        } else {
          files := files + [(Basename(f), cs)];
        }
        i := i + 1;
      }
      assert sorted[..|sorted|] == sorted;
    }

    /** Hashes a prepared task and computes the hash again from the dumped data, as dump_sigtask does to
      * report a mismatch. */
    method CheckTaskhash(tid: Tid, ghost order: seq<Tid>, file: Option<string>) returns (computed: string)
      requires Prepared(tid, order) && tid !in order
      modifies this`taskhash
      ensures tid in taskhash
      ensures NamesTell(Pairs(t, tid, order), old(taskhash)) && TaintHolds(t.Taint(tid), file) ==>
                computed == taskhash[tid]
    {
      ghost var before := taskhash;
      ghost var pairs := Pairs(t, tid, order);
      var h := GetTaskhash(tid, order);
      var data := DumpSigtask(tid, order, file);
      TwoHashesAgree(t.base[tid], pairs, taskhash, t.Files(tid), t.Taint(tid), file, 0);
      SameTaskText(t.base[tid], pairs, before, taskhash, t.Files(tid), t.Taint(tid));
      computed := CalcTaskhash(data, hash);
    }
  }

  // ---- The hash a task graph gives --------------------------------------------------------------

  /** The dependencies that count have no cycle: each has a lower rank. */
  ghost predicate Ranked(t: Tasks, rank: map<Tid, nat>) {
    && t.deps.Keys <= rank.Keys
    && forall tid, d :: tid in t.deps && d in t.KeptDeps(tid) ==> d in t.deps && rank[d] < rank[tid]
  }

  /** The elements of a set, each once, in any order. */
  ghost predicate Orders(order: seq<Tid>, s: set<Tid>) {
    && (forall i, j :: 0 <= i < j < |order| ==> order[i] != order[j])
    && forall x :: x in s <==> x in order
  }

  ghost function SomeOrder(s: set<Tid>): (order: seq<Tid>)
    ensures Orders(order, s)
  {
    if s == {} then [] else var x :| x in s; SomeOrder(s - {x}) + [x]
  }

  /** By recursion over the graph: no order of processing, no order of dependencies. */
  ghost function TaskHash(t: Tasks, rank: map<Tid, nat>, hash: string -> string, tid: Tid): string
    requires t.Complete() && Ranked(t, rank) && tid in t.deps
    decreases rank[tid]
  {
    var hashes := map d | d in t.KeptDeps(tid) :: TaskHash(t, rank, hash, d);
    hash(TaskText(t.base[tid], Pairs(t, tid, SomeOrder(t.deps[tid])), hashes, t.Files(tid), t.Taint(tid)))
  }

  ghost predicate Respects(t: Tasks, order: seq<(Tid, seq<Tid>)>) {
    forall i, d :: 0 <= i < |order| && d in order[i].1 && (order[i].0, d) in t.kept ==>
                     exists j :: 0 <= j < i && order[j].0 == d
  }

  /** The tasks before place i. */
  ghost function Firsts(order: seq<(Tid, seq<Tid>)>, i: nat): set<Tid>
    requires i <= |order|
  {
    set j | 0 <= j < i :: order[j].0
  }

  lemma FirstsNext(order: seq<(Tid, seq<Tid>)>, i: nat)
    requires i < |order|
    ensures Firsts(order, i + 1) == Firsts(order, i) + {order[i].0}
  {
  }

  lemma RespectsNext(t: Tasks, order: seq<(Tid, seq<Tid>)>, i: nat)
    requires i < |order| && Respects(t, order[..i])
    ensures Respects(t, order[..i + 1]) <==>
            forall d :: d in order[i].1 && (order[i].0, d) in t.kept ==> d in Firsts(order, i)
  {
    var longer := order[..i + 1];
    assert longer[i] == order[i];
    if forall d :: d in order[i].1 && (order[i].0, d) in t.kept ==> d in Firsts(order, i) {
      forall k, d | 0 <= k < |longer| && d in longer[k].1 && (longer[k].0, d) in t.kept
        ensures exists j :: 0 <= j < k && longer[j].0 == d
      {
        if k < i {
          assert order[..i][k] == longer[k];
          var j :| 0 <= j < k && order[..i][j].0 == d;
          assert longer[j].0 == d;
        } else {
          var j :| 0 <= j < i && order[j].0 == d;
          assert longer[j].0 == d;
        }
      }
    }
    if Respects(t, longer) {
      forall d | d in order[i].1 && (order[i].0, d) in t.kept ensures d in Firsts(order, i) {
        assert d in longer[i].1 && (longer[i].0, d) in t.kept;
        var j :| 0 <= j < i && longer[j].0 == d;
        assert order[j].0 == d;
      }
    }
  }

  lemma RespectsFront(t: Tasks, order: seq<(Tid, seq<Tid>)>, i: nat)
    requires i <= |order|
    ensures Respects(t, order) ==> Respects(t, order[..i])
  {
    if Respects(t, order) {
      forall k, d | 0 <= k < i && d in order[..i][k].1 && (order[..i][k].0, d) in t.kept
        ensures exists j :: 0 <= j < k && order[..i][j].0 == d
      {
        assert d in order[k].1;
        var j :| 0 <= j < k && order[j].0 == d;
        assert order[..i][j].0 == d;
      }
    }
  }

  lemma {:induction false} PairsDistinct(t: Tasks, tid: Tid, order: seq<Tid>)
    requires forall d :: d in order ==> d in t.pnid
    requires forall i, j :: 0 <= i < j < |order| ==> order[i] != order[j]
    ensures Distinct(Pairs(t, tid, order))
  {
    if order != [] {
      var front, d := order[..|order| - 1], order[|order| - 1];
      PairsDistinct(t, tid, front);
      assert d !in front;
      assert (t.pnid[d], d) !in Pairs(t, tid, front);
    }
  }

  lemma PairsOrderFree(t: Tasks, tid: Tid, a: seq<Tid>, b: seq<Tid>, s: set<Tid>)
    requires Orders(a, s) && Orders(b, s) && s <= t.pnid.Keys
    ensures Sort(PairLe, Pairs(t, tid, a)) == Sort(PairLe, Pairs(t, tid, b))
  {
    PairsDistinct(t, tid, a);
    PairsDistinct(t, tid, b);
    var members := set p | p in Pairs(t, tid, a);
    DistinctMultiset(Pairs(t, tid, a), members);
    DistinctMultiset(Pairs(t, tid, b), members);
    PairLinear();
    SortOrderFree(PairLe, Pairs(t, tid, a), Pairs(t, tid, b));
  }

  lemma {:induction false} DepHashesSame(pairs: seq<(string, Tid)>, a: map<Tid, string>, b: map<Tid, string>)
    requires forall p :: p in pairs ==> p.1 in a && p.1 in b && a[p.1] == b[p.1]
    ensures DepHashes(pairs, a) == DepHashes(pairs, b)
  {
    if pairs != [] {
      DepHashesSame(pairs[..|pairs| - 1], a, b);
    }
  }

  lemma SameTaskText(base: string, pairs: seq<(string, Tid)>, a: map<Tid, string>, b: map<Tid, string>,
                     files: seq<(string, string)>, taint: Option<string>)
    requires forall p :: p in pairs ==> p.1 in a && p.1 in b && a[p.1] == b[p.1]
    ensures TaskText(base, pairs, a, files, taint) == TaskText(base, pairs, b, files, taint)
  {
    SortPermutes(PairLe, pairs);
    SameMembers(Sort(PairLe, pairs), pairs);
    DepHashesSame(Sort(PairLe, pairs), a, b);
  }

  /** The text only depends on the sorted dependencies and on their hashes. */
  lemma TextFromSorted(base: string, a: seq<(string, Tid)>, b: seq<(string, Tid)>, ha: map<Tid, string>,
                       hb: map<Tid, string>, files: seq<(string, string)>, taint: Option<string>)
    requires Sort(PairLe, a) == Sort(PairLe, b) && (forall p :: p in a ==> p.1 in ha)
    requires forall p :: p in b ==> p.1 in ha && p.1 in hb && ha[p.1] == hb[p.1]
    ensures TaskText(base, a, ha, files, taint) == TaskText(base, b, hb, files, taint)
  {
    SortPermutes(PairLe, b);
    SameMembers(Sort(PairLe, b), b);
    DepHashesSame(Sort(PairLe, b), ha, hb);
  }

  /** One task: with the right hashes of what it depends on, its hash is the right one, in whatever order the
    * dependencies were given. */
  lemma HashStep(t: Tasks, rank: map<Tid, nat>, hash: string -> string, tid: Tid, order: seq<Tid>,
                 hashes: map<Tid, string>)
    requires t.Complete() && Ranked(t, rank) && tid in t.deps && Orders(order, t.deps[tid])
    requires forall d :: d in t.KeptDeps(tid) ==> d in hashes && hashes[d] == TaskHash(t, rank, hash, d)
    ensures hash(TaskText(t.base[tid], Pairs(t, tid, order), hashes, t.Files(tid), t.Taint(tid))) ==
            TaskHash(t, rank, hash, tid)
  {
    var some := SomeOrder(t.deps[tid]);
    var right := map d | d in t.KeptDeps(tid) :: TaskHash(t, rank, hash, d);
    PairsOrderFree(t, tid, order, some, t.deps[tid]);
    TextFromSorted(t.base[tid], Pairs(t, tid, order), Pairs(t, tid, some), hashes, right, t.Files(tid), t.Taint(tid));
  }

  /** Every hash recorded is the one the graph gives. */
  ghost predicate AllRight(t: Tasks, rank: map<Tid, nat>, hash: string -> string, hashes: map<Tid, string>)
    requires t.Complete() && Ranked(t, rank)
  {
    forall tid :: tid in hashes ==> tid in t.deps && hashes[tid] == TaskHash(t, rank, hash, tid)
  }

  lemma RightNext(t: Tasks, rank: map<Tid, nat>, hash: string -> string, hashes: map<Tid, string>, tid: Tid,
                  order: seq<Tid>)
    requires t.Complete() && Ranked(t, rank) && tid in t.deps && Orders(order, t.deps[tid])
    requires AllRight(t, rank, hash, hashes) && forall d :: d in order && (tid, d) in t.kept ==> d in hashes
    ensures forall p :: p in Pairs(t, tid, order) ==> p.1 in hashes
    ensures AllRight(t, rank, hash, hashes[tid := hash(TaskText(t.base[tid], Pairs(t, tid, order), hashes,
                                                                t.Files(tid), t.Taint(tid)))])
  {
    HashStep(t, rank, hash, tid, order, hashes);
  }

  // ---- The signature file, and hashing from it --------------------------------------------------

  /** The part of a signature file that task hashes come from. */
  datatype SigData = SigData(basehash: string, runtaskdeps: seq<string>, files: seq<(string, string)>,
                             runtaskhashes: map<string, string>, taint: Option<string>)

  function PairNames(pairs: seq<(string, Tid)>): seq<string> {
    seq(|pairs|, i requires 0 <= i < |pairs| => pairs[i].0)
  }

  /** data["runtaskhashes"]: a later dependency of the same name replaces an earlier one. */
  function RunTaskHashes(pairs: seq<(string, Tid)>, hashes: map<Tid, string>): map<string, string>
    requires forall p :: p in pairs ==> p.1 in hashes
  {
    if pairs == [] then map[]
    else RunTaskHashes(pairs[..|pairs| - 1], hashes)[pairs[|pairs| - 1].0 := hashes[pairs[|pairs| - 1].1]]
  }

  function DumpedFile(file: (string, string)): (string, string) {
    (CleanPath(file.0), file.1)
  }

  function DumpedFiles(files: seq<(string, string)>): seq<(string, string)> {
    seq(|files|, i requires 0 <= i < |files| => DumpedFile(files[i]))
  }

  /** The taint file is read again; a recorded taint with "nostamp:" anywhere in it replaces it. */
  function DumpedTaint(recorded: Option<string>, file: Option<string>): Option<string> {
    if recorded.Some? && Contains(NOSTAMP, recorded.value) then recorded
    else if file.Some? && file.value != "" then file
    else None
  }

  function Dump(base: string, pairs: seq<(string, Tid)>, hashes: map<Tid, string>, files: seq<(string, string)>,
                recorded: Option<string>, file: Option<string>): SigData
    requires forall p :: p in pairs ==> p.1 in hashes
  {
    SigData(base, PairNames(Sort(PairLe, pairs)), DumpedFiles(Sort(CleanLe, files)), RunTaskHashes(pairs, hashes),
            DumpedTaint(recorded, file))
  }

  method CalcTaskhash(data: SigData, hash: string -> string) returns (h: string)
    requires forall d :: d in data.runtaskdeps ==> d in data.runtaskhashes
    ensures h == hash(CalcText(data))
  {
    var text := data.basehash;
    var i := 0;
    while i < |data.runtaskdeps|
      invariant i <= |data.runtaskdeps|
      invariant text == data.basehash + CalcDeps(data.runtaskdeps[..i], data.runtaskhashes)
    {
      assert data.runtaskdeps[..i + 1][..i] == data.runtaskdeps[..i];
      text := text + data.runtaskhashes[data.runtaskdeps[i]];
      i := i + 1;
    }
    assert data.runtaskdeps[..|data.runtaskdeps|] == data.runtaskdeps;
    text := CalcAddFiles(text, data.files);
    match data.taint {
      case Some(x) => text := text + if Contains(NOSTAMP, x) then x[|NOSTAMP|..] else x;
      case None => assert text == text + "";
    }
    h := hash(text);
  }

  method CalcAddFiles(start: string, files: seq<(string, string)>) returns (text: string)
    ensures text == start + CalcFiles(files)
  {
    text := start;
    var i := 0;
    while i < |files|
      invariant i <= |files|
      invariant text == start + CalcFiles(files[..i])
    {
      assert files[..i + 1][..i] == files[..i];
      if files[i].1 != "" {
        if Contains("./", files[i].0) {
          text := text + files[i].0;
        }
        text := text + files[i].1;
      }
      i := i + 1;
    }
    assert files[..|files|] == files;
  }

  function CalcDeps(names: seq<string>, hashes: map<string, string>): string
    requires forall d :: d in names ==> d in hashes
  {
    if names == [] then "" else CalcDeps(names[..|names| - 1], hashes) + hashes[names[|names| - 1]]
  }

  function CalcFiles(files: seq<(string, string)>): string {
    if files == [] then ""
    else
      var (f, cs) := files[|files| - 1];
      CalcFiles(files[..|files| - 1]) + if cs == "" then "" else (if Contains("./", f) then f else "") + cs
  }

  function CalcTaint(taint: Option<string>): string {
    match taint
    case None => ""
    case Some(x) => if Contains(NOSTAMP, x) then x[|NOSTAMP|..] else x
  }

  function CalcText(data: SigData): string
    requires forall d :: d in data.runtaskdeps ==> d in data.runtaskhashes
  {
    data.basehash + CalcDeps(data.runtaskdeps, data.runtaskhashes) + CalcFiles(data.files) + CalcTaint(data.taint)
  }

  // ---- The two computations compared ------------------------------------------------------------

  /** Dependencies with the same recipe-and-task name have the same hash. */
  ghost predicate NamesTell(pairs: seq<(string, Tid)>, hashes: map<Tid, string>)
    requires forall p :: p in pairs ==> p.1 in hashes
  {
    forall p, q :: p in pairs && q in pairs && p.0 == q.0 ==> hashes[p.1] == hashes[q.1]
  }

  lemma {:induction false} RunTaskHashesRight(pairs: seq<(string, Tid)>, hashes: map<Tid, string>)
    requires forall p :: p in pairs ==> p.1 in hashes
    ensures forall p :: p in pairs ==> p.0 in RunTaskHashes(pairs, hashes)
    ensures forall x :: x in RunTaskHashes(pairs, hashes) ==>
              exists p :: p in pairs && p.0 == x && hashes[p.1] == RunTaskHashes(pairs, hashes)[x]
    ensures NamesTell(pairs, hashes) ==> forall p :: p in pairs ==> RunTaskHashes(pairs, hashes)[p.0] == hashes[p.1]
  {
    if pairs != [] {
      RunTaskHashesRight(pairs[..|pairs| - 1], hashes);
    }
  }

  lemma {:induction false} DepsAgree(pairs: seq<(string, Tid)>, hashes: map<Tid, string>, byName: map<string, string>)
    requires forall p :: p in pairs ==> p.1 in hashes && p.0 in byName
    ensures forall d :: d in PairNames(pairs) ==> d in byName
    ensures (forall p :: p in pairs ==> byName[p.0] == hashes[p.1]) ==>
              CalcDeps(PairNames(pairs), byName) == DepHashes(pairs, hashes)
  {
    if pairs != [] {
      var front, last := pairs[..|pairs| - 1], pairs[|pairs| - 1];
      assert pairs == front + [last];
      DepsAgree(front, hashes, byName);
      assert PairNames(pairs) == PairNames(front) + [last.0];
      assert PairNames(pairs)[..|pairs| - 1] == PairNames(front);
    }
  }

  /** Every hash that is looked up has length n, as hex digests of one function have. */
  ghost predicate OneLength(pairs: seq<(string, Tid)>, hashes: map<Tid, string>, byName: map<string, string>, n: nat)
  {
    forall p :: p in pairs ==> p.1 in hashes && p.0 in byName && |hashes[p.1]| == n && |byName[p.0]| == n
  }

  /** Texts made of hashes of one length agree only when every hash does. */
  lemma {:induction false} DepsDiffer(pairs: seq<(string, Tid)>, hashes: map<Tid, string>, byName: map<string, string>,
                                      n: nat)
    requires OneLength(pairs, hashes, byName, n)
    ensures forall d :: d in PairNames(pairs) ==> d in byName
    ensures |CalcDeps(PairNames(pairs), byName)| == |DepHashes(pairs, hashes)|
    ensures CalcDeps(PairNames(pairs), byName) == DepHashes(pairs, hashes) ==>
              forall p :: p in pairs ==> byName[p.0] == hashes[p.1]
  {
    if pairs != [] {
      var front, last := pairs[..|pairs| - 1], pairs[|pairs| - 1];
      assert pairs == front + [last];
      DepsDiffer(front, hashes, byName, n);
      assert PairNames(pairs) == PairNames(front) + [last.0];
      assert PairNames(pairs)[..|pairs| - 1] == PairNames(front);
      SameEnds(CalcDeps(PairNames(front), byName), byName[last.0], DepHashes(front, hashes), hashes[last.1]);
    }
  }

  /** For hashes of one length, the hashes looked up by name give the recorded text exactly when names tell
    * the dependencies apart. */
  lemma NamesTellExact(pairs: seq<(string, Tid)>, hashes: map<Tid, string>, n: nat)
    requires forall p :: p in pairs ==> p.1 in hashes && |hashes[p.1]| == n
    ensures var sorted, byName := Sort(PairLe, pairs), RunTaskHashes(pairs, hashes);
            && (forall p :: p in sorted ==> p.1 in hashes) && (forall d :: d in PairNames(sorted) ==> d in byName)
            && |CalcDeps(PairNames(sorted), byName)| == |DepHashes(sorted, hashes)|
            && (CalcDeps(PairNames(sorted), byName) == DepHashes(sorted, hashes) <==> NamesTell(pairs, hashes))
  {
    var sorted, byName := Sort(PairLe, pairs), RunTaskHashes(pairs, hashes);
    SortPermutes(PairLe, pairs);
    SameMembers(sorted, pairs);
    RunTaskHashesRight(pairs, hashes);
    assert OneLength(sorted, hashes, byName, n);
    DepsDiffer(sorted, hashes, byName, n);
    DepsAgree(sorted, hashes, byName);
  }

  /** The dumped name of a file has "./" in it exactly when the path has "/./" in it. */
  lemma DotInCleanPath(f: string)
    ensures Contains("./", CleanPath(f)) <==> Contains(DOT_PART, f)
  {
    if Contains(DOT_PART, f) {
      assert At("./", CleanPath(f), 0);
    } else {
      SlashInIt(Basename(f));
    }
  }

  lemma SlashInIt(s: string)
    ensures Contains("./", s) ==> '/' in s
  {
    if Contains("./", s) {
      var i :| 0 <= i <= |s| && At("./", s, i);
      assert s[i..i + 2][1] == s[i + 1];
    }
  }

  lemma DumpedNext(files: seq<(string, string)>, file: (string, string))
    ensures DumpedFiles(files + [file]) == DumpedFiles(files) + [DumpedFile(file)]
  {
  }

  lemma CalcFilesNext(files: seq<(string, string)>, file: (string, string))
    ensures CalcFiles(files + [file]) ==
            CalcFiles(files) + if file.1 == "" then "" else (if Contains("./", file.0) then file.0 else "") + file.1
  {
    assert (files + [file])[..|files|] == files;
  }

  lemma {:induction false} FilesAgree(files: seq<(string, string)>)
    ensures CalcFiles(DumpedFiles(files)) == FileText(files)
  {
    if files != [] {
      var front, file := files[..|files| - 1], files[|files| - 1];
      FilesAgree(front);
      DotInCleanPath(file.0);
      assert files == front + [file];
      DumpedNext(front, file);
      CalcFilesNext(DumpedFiles(front), DumpedFile(file));
    }
  }

  /** When the taint parts agree. A recorded taint must start with "nostamp:" if it has that in it at all;
    * one without must still be in the taint file; and without a recorded one the file must be gone or say
    * nothing. */
  predicate TaintHolds(recorded: Option<string>, file: Option<string>) {
    match recorded
    case None => file.None? || file.value == "" || file.value == NOSTAMP
    case Some(x) =>
      if Contains(NOSTAMP, x) then StartsWith(x, NOSTAMP)
      else if file.None? then x == ""
      else file.value == x || (Contains(NOSTAMP, file.value) && file.value[|NOSTAMP|..] == x)
  }

  lemma TaintExact(recorded: Option<string>, file: Option<string>)
    ensures CalcTaint(DumpedTaint(recorded, file)) == TaintText(recorded) <==> TaintHolds(recorded, file)
  {
    match recorded
    case None =>
      if file.Some? && Contains(NOSTAMP, file.value) && |file.value| == |NOSTAMP| {
        var i :| 0 <= i <= |file.value| && At(NOSTAMP, file.value, i);
        assert file.value == file.value[i..i + |NOSTAMP|];
      } else if file == Some(NOSTAMP) {
        assert At(NOSTAMP, NOSTAMP, 0);
      }
    case Some(x) =>
      if StartsWith(x, NOSTAMP) {
        assert At(NOSTAMP, x, 0);
      }
  }

  /** A taint file that has "nostamp:" in it, but not at its start: the recorded text keeps it whole, the
    * second computation cuts off eight characters. */
  lemma TaintShown()
    ensures TaintText(Some("xnostamp:1")) == "xnostamp:1"
    ensures CalcTaint(DumpedTaint(Some("xnostamp:1"), Some("xnostamp:1"))) == ":1"
    ensures !TaintHolds(Some("xnostamp:1"), Some("xnostamp:1"))
  {
    var x := "xnostamp:1";
    assert x[0] != NOSTAMP[0];
    assert At(NOSTAMP, x, 1);
    assert x[|NOSTAMP|..] == ":1";
  }

  /** The hash computed from the signature file is over the same text as the one recorded exactly when the
    * taint holds and names tell the dependencies apart, for hashes of one length n; whatever the hashes,
    * names that tell and a taint that holds are enough. */
  lemma TwoHashesAgree(base: string, pairs: seq<(string, Tid)>, hashes: map<Tid, string>,
                       files: seq<(string, string)>, recorded: Option<string>, file: Option<string>, n: nat)
    requires forall p :: p in pairs ==> p.1 in hashes
    ensures var data := Dump(base, pairs, hashes, files, recorded, file);
            && (forall d :: d in data.runtaskdeps ==> d in data.runtaskhashes)
            && (NamesTell(pairs, hashes) ==>
                  (CalcText(data) == TaskText(base, pairs, hashes, files, recorded) <==> TaintHolds(recorded, file)))
            && ((forall p :: p in pairs ==> |hashes[p.1]| == n) ==>
                  (CalcText(data) == TaskText(base, pairs, hashes, files, recorded) <==>
                   NamesTell(pairs, hashes) && TaintHolds(recorded, file)))
  {
    var data := Dump(base, pairs, hashes, files, recorded, file);
    var sorted := Sort(PairLe, pairs);
    SortPermutes(PairLe, pairs);
    SameMembers(sorted, pairs);
    RunTaskHashesRight(pairs, hashes);
    DepsAgree(sorted, hashes, data.runtaskhashes);
    FilesAgree(Sort(CleanLe, files));
    TaintExact(recorded, file);
    var found, deps, rest := CalcDeps(data.runtaskdeps, data.runtaskhashes), DepHashes(sorted, hashes),
        FileText(Sort(CleanLe, files));
    SameEnds(base + deps + rest, CalcTaint(data.taint), base + deps + rest, TaintText(recorded));
    if forall p :: p in pairs ==> |hashes[p.1]| == n {
      NamesTellExact(pairs, hashes, n);
      SameEnds(base + found + rest, CalcTaint(data.taint), base + deps + rest, TaintText(recorded));
      SameEnds(base + found, rest, base + deps, rest);
      SameEnds(base, found, base, deps);
    }
  }

  /** For example, two dependencies with one name and different hashes: the second computation uses one of
    * them twice. */
  lemma SharedNameDiffers()
    ensures var pairs, hashes := [("x", "1"), ("x", "2")], map["1" := "a", "2" := "b"];
            && DepHashes(Sort(PairLe, pairs), hashes) == "ab"
            && CalcDeps(PairNames(Sort(PairLe, pairs)), RunTaskHashes(pairs, hashes)) == "bb"
  {
    var pairs, hashes := [("x", "1"), ("x", "2")], map["1" := "a", "2" := "b"];
    assert StrLe("1", "2");
    assert pairs[1..] == [("x", "2")] && pairs[1..][1..] == [];
    assert Sort(PairLe, pairs[1..]) == [("x", "2")];
    assert Sort(PairLe, pairs) == pairs;
    assert pairs[..1] == [("x", "1")] && pairs[..1][..0] == [];
    assert DepHashes(pairs[..1], hashes) == "a";
    assert RunTaskHashes(pairs[..1], hashes) == map["x" := "a"];
    assert RunTaskHashes(pairs, hashes) == map["x" := "b"];
    var names := PairNames(pairs);
    assert names == ["x", "x"] && names[..1] == ["x"] && names[..1][..0] == [];
    assert CalcDeps(names[..1], map["x" := "b"]) == "b";
  }

  // ---- The base hash ----------------------------------------------------------------------------

  /** data["varvals"]: a task and its dependencies, but no ignored variable. */
  function Varvals(lookup: map<Tid, Option<string>>, task: Tid, taskdeps: set<Tid>, ignored: set<Tid>)
      : map<Tid, Option<string>>
    requires task in lookup && taskdeps <= lookup.Keys
  {
    map k | k in taskdeps + {task} && (k == task || k !in ignored) :: lookup[k]
  }

  /** None is the KeyError of a dependency without a value. */
  method CalcBasehash(task: Tid, taskdeps: set<Tid>, varvals: map<Tid, Option<string>>, hash: string -> string)
      returns (h: Option<string>)
    requires task in varvals
    ensures h.Some? <==> taskdeps <= varvals.Keys
    ensures h.Some? ==> D.HashedOver(varvals, task, taskdeps, hash, h.value)
  {
    var basedata := D.Str(varvals[task]);
    var alldeps := SortedNames(taskdeps);
    var i := 0;
    while i < |alldeps|
      invariant i <= |alldeps|
      invariant forall k :: k in alldeps[..i] ==> k in varvals
      invariant basedata == D.BaseText(varvals, task, alldeps[..i])
    {
      if alldeps[i] !in varvals {
        return None;
      }
      assert alldeps[..i + 1] == alldeps[..i] + [alldeps[i]];
      D.TextNext(varvals, task, alldeps[..i + 1], i);
      assert alldeps[..i + 1][..i] == alldeps[..i];
      basedata := basedata + alldeps[i] + D.Str(varvals[alldeps[i]]);
      i := i + 1;
    }
    assert alldeps[..|alldeps|] == alldeps;
    h := Some(hash(basedata));
    forall names | Lists(names, taskdeps) ensures names == alldeps {
      ListsUnique(names, alldeps, taskdeps);
    }
  }

  /** From a recipe to its base hashes and back from the dumped data: the second computation is defined, since
    * no ignored variable is a dependency, and gives the recorded hash for every task. */
  method CheckBasehash(world: map<Tid, D.Built>, tasklist: seq<Tid>, ignored: set<Tid>, fn: string,
                       hash: string -> string) returns (matches: bool)
    requires D.Closed(D.GraphOf(world)) && forall t :: t in tasklist ==> t in world
    requires forall k :: k in world ==> world[k].deps !! ignored
    ensures matches
  {
    var taskdeps, gendeps, lookup, basehash := D.BuildData(world, tasklist, ignored, fn, hash);
    matches := true;
    var i := 0;
    while i < |tasklist|
      invariant i <= |tasklist| && matches
    {
      var task := tasklist[i];
      var varvals := Varvals(lookup, task, taskdeps[task], ignored);
      var h := CalcBasehash(task, taskdeps[task], varvals, hash);
      BasehashAgrees(lookup, varvals, task, taskdeps[task], hash, basehash[fn + ":" + task], h.value);
      matches := matches && h == Some(basehash[fn + ":" + task]);
      i := i + 1;
    }
  }

  lemma BasehashAgrees(a: map<Tid, Option<string>>, b: map<Tid, Option<string>>, task: Tid, deps: set<Tid>,
                       hash: string -> string, h: string, g: string)
    requires task in a && task in b && deps <= a.Keys && deps <= b.Keys
    requires forall k :: k == task || k in deps ==> a[k] == b[k]
    requires D.HashedOver(a, task, deps, hash, h) && D.HashedOver(b, task, deps, hash, g)
    ensures h == g
  {
    var names := ListsExist(deps);
    D.SameText(a, b, names);
  }

  lemma ListsExist(s: set<string>) returns (names: seq<string>)
    ensures Lists(names, s)
  {
    var order := SomeOrder(s);
    names := Sort(StrLe, order);
    StrLinear();
    SortSorts(StrLe, order);
    SortPermutes(StrLe, order);
    SameMembers(names, order);
    DistinctMultiset(order, s);
    NoneTwice(names, s);
  }
}
