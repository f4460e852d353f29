/** The directories the boot manager works on, as one map from paths to contents, together with the
    history of every state the disk went through: each entry of `history` is a possible crash point.
    Every system call that can fail may fail here, at any time. */
module Disks {
  import opened Text

  datatype Area =
    | KernelDir            // kernels, their configuration and their initrds
    | UserInitrdDir        // initrds placed by the user
    | ModuleDir
    | OldModuleDir         // where modules were before /usr was merged
    | HeaderDir
    | MarkerDir            // boot markers
    | FreestandingDir      // initrds that belong to no kernel
    | UserFreestandingDir
    | EspKernels           // kernel directory of the EFI system partition
    | EspRoot              // root of the EFI system partition
    | LoaderEntries        // loader/entries
    | LoaderDir            // loader

  datatype Path = Path(area: Area, name: string)

  type Files = map<Path, string>

  /** The two states agree on `p`. */
  ghost predicate Same(a: Files, b: Files, p: Path) {
    (p in a <==> p in b) && (p in a ==> a[p] == b[p])
  }

  /** The two states agree outside `fp`. */
  ghost predicate Frame(a: Files, b: Files, fp: iset<Path>) {
    forall p :: p !in fp ==> Same(a, b, p)
  }

  /** `b` lost some of the files of `a`, and changed none. */
  ghost predicate Shrunk(a: Files, b: Files) {
    forall p | p in b :: p in a && b[p] == a[p]
  }

  ghost function Last(h: seq<Files>): Files
    requires h != []
  {
    h[|h| - 1]
  }

  /** `later` continues `earlier`, and every state it adds agrees with the last one outside `fp`. */
  ghost predicate Evolves(earlier: seq<Files>, later: seq<Files>, fp: iset<Path>) {
    && earlier != []
    && earlier <= later
    && forall i | |earlier| <= i < |later| :: Frame(Last(earlier), later[i], fp)
  }

  lemma EvolvesLast(h0: seq<Files>, h1: seq<Files>, fp: iset<Path>)
    requires Evolves(h0, h1, fp)
    ensures Frame(Last(h0), Last(h1), fp)
  {
  }

  lemma EvolvesThen(h0: seq<Files>, h1: seq<Files>, h2: seq<Files>, fp1: iset<Path>, fp2: iset<Path>, fp: iset<Path>)
    requires Evolves(h0, h1, fp1) && Evolves(h1, h2, fp2)
    requires fp1 <= fp && fp2 <= fp
    ensures Evolves(h0, h2, fp)
  {
    EvolvesLast(h0, h1, fp1);
    forall i | |h0| <= i < |h2|
      ensures Frame(Last(h0), h2[i], fp)
    {
      if i < |h1| {
        assert h2[i] == h1[i];
      } else {
        assert Frame(Last(h1), h2[i], fp2);
      }
    }
  }

  /** A stretch of history in which files only go: every state has lost some of the files of the first. */
  ghost predicate Removes(earlier: seq<Files>, later: seq<Files>, fp: iset<Path>) {
    Evolves(earlier, later, fp) && forall i | |earlier| <= i < |later| :: Shrunk(Last(earlier), later[i])
  }

  lemma RemovesThen(h0: seq<Files>, h1: seq<Files>, h2: seq<Files>, fp1: iset<Path>, fp2: iset<Path>, fp: iset<Path>)
    requires Removes(h0, h1, fp1) && Removes(h1, h2, fp2)
    requires fp1 <= fp && fp2 <= fp
    ensures Removes(h0, h2, fp)
  {
    EvolvesThen(h0, h1, h2, fp1, fp2, fp);
    forall i | |h0| <= i < |h2|
      ensures Shrunk(Last(h0), h2[i])
    {
      if i < |h1| {
        assert h2[i] == h1[i];
      } else {
        assert Shrunk(Last(h1), h2[i]) && Shrunk(Last(h0), Last(h1));
      }
    }
  }

  /** `q` lists the elements of `s`, each once. */
  ghost predicate Lists<T(!new)>(q: seq<T>, s: set<T>) {
    && (forall i, j | 0 <= i < j < |q| :: q[i] != q[j])
    && (forall x :: x in q <==> x in s)
  }

  /** The names in `area` matched by the glob `base.*`, for a base without glob metacharacters. */
  function GlobNames(files: Files, area: Area, base: string): set<string> {
    set p | p in files && p.area == area && HasPrefix(p.name, base + ".") :: p.name
  }

  /** Both files are there and equal. */
  predicate Match(files: Files, p: Path, q: Path) {
    p in files && q in files && files[p] == files[q]
  }

  /** What a copy may leave of its target at a crash point: the old file, nothing, or the whole new one;
      and once the old file is gone the new content is complete under one of the two names. */
  ghost predicate CrashSafe(before: Files, now: Files, target: Path, tmp: Path, content: string) {
    && (Same(before, now, target) || target !in now || now[target] == content)
    && (target in before && target !in now ==> tmp in now && now[tmp] == content)
  }

  /** Where a copy is staged. */
  function Tmp(target: Path): Path {
    Path(target.area, target.name + ".TmpWrite")
  }

  class Disk {
    var files: Files
    ghost var history: seq<Files>
    /** How many system calls have failed although nothing stood in their way. */
    ghost var faults: nat
    /** readdir, glob and hash-map iteration: some order that depends only on the set of names. */
    const order: set<string> -> seq<string>

    ghost predicate Valid()
      reads this
    {
      && history != []
      && Last(history) == files
      && forall s :: Lists(order(s), s)
    }

    constructor (content: Files, order: set<string> -> seq<string>)
      requires forall s :: Lists(order(s), s)
      ensures Valid() && files == content && history == [content] && faults == 0 && this.order == order
    {
      files := content;
      history := [content];
      faults := 0;
      this.order := order;
    }

    /** A system call that changes nothing, or fails. */
    method Try() returns (ok: bool)
      modifies this`faults
      ensures faults == old(faults) + if ok then 0 else 1
    {
      ok := *;
      if !ok {
        faults := faults + 1;
      }
    }

    /** unlink(2) */
    method Unlink(p: Path) returns (ok: bool)
      requires Valid()
      modifies this
      ensures Valid() && Removes(old(history), history, iset{p}) && faults >= old(faults)
      ensures ok ==> p in old(files) && files == old(files) - {p} && history == old(history) + [files]
      ensures !ok ==> files == old(files) && history == old(history)
      ensures p in old(files) && faults == old(faults) ==> ok
    {
      ok := Try();
      ok := ok && p in files;
      if ok {
        files := files - {p};
        history := history + [files];
      }
    }

    /** nc_rm_rf: a failure may leave the directory in place. */
    method RemoveTree(p: Path) returns (ok: bool)
      requires Valid()
      modifies this
      ensures Valid() && Removes(old(history), history, iset{p}) && faults >= old(faults)
      ensures files == if ok then old(files) - {p} else old(files)
      ensures faults == old(faults) ==> ok
    {
      ok := Try();
      if ok {
        files := files - {p};
        history := history + [files];
      }
    }

    /** What an open file holds after one write(2) or sendfile(2). */
    method Write(p: Path, content: string)
      requires Valid()
      modifies this`files, this`history
      ensures Valid()
      ensures files == old(files)[p := content] && history == old(history) + [files]
    {
      files := files[p := content];
      history := history + [files];
    }

    /** readdir: the names in one directory, each once. */
    method List(area: Area) returns (names: seq<string>)
      requires Valid()
      ensures forall i, j | 0 <= i < j < |names| :: names[i] != names[j]
      ensures forall i | 0 <= i < |names| :: Path(area, names[i]) in files
      ensures forall p | p in files && p.area == area :: p.name in names
    {
      var present := set p | p in files && p.area == area :: p.name;
      names := order(present);
      assert forall i | 0 <= i < |names| :: names[i] in present;
      assert forall p | p in files && p.area == area :: p.name in present;
    }

    /** glob(3) for `base.*` in one directory. */
    method Glob(area: Area, base: string) returns (names: seq<string>)
      requires Valid()
      ensures names == order(GlobNames(files, area, base))
      ensures Lists(names, GlobNames(files, area, base))
    {
      names := order(GlobNames(files, area, base));
    }

    /** cbm_files_match */
    predicate FilesMatch(p: Path, q: Path)
      reads this
    {
      Match(files, p, q)
    }

    /** The sendfile loop: whatever chunk sizes the kernel chooses, the target ends equal to the source,
        and at every crash point it is a prefix of it. */
    method CopyFile(src: Path, target: Path) returns (ok: bool)
      requires Valid() && src != target
      modifies this
      ensures Valid() && Evolves(old(history), history, iset{target}) && faults >= old(faults)
      ensures ok ==> src in old(files) && files == old(files)[target := old(files)[src]]
      ensures src in old(files) && faults == old(faults) ==> ok
      ensures forall i | |old(history)| <= i < |history| ::
                src in old(files) && target in history[i] && history[i][target] <= old(files)[src]
    {
      ok := Try();
      if src !in files || !ok {
        return false;
      }
      ok := Try();
      if !ok {
        return false;
      }
      ghost var before, h0 := files, history;
      var content := files[src];
      Write(target, "");
      ok := Try();
      if !ok {
        return false;
      }
      var sz: nat, done: nat := |content|, 0;
      while true
        invariant Valid() && h0 <= history && faults == old(faults)
        invariant done + sz == |content|
        invariant files == before[target := content[..done]]
        invariant forall i | |h0| <= i < |history| ::
            Frame(before, history[i], iset{target}) && target in history[i] && history[i][target] <= content
        decreases sz
      {
        var written := Send(target, content, done, sz);
        if written == sz {
          assert content[..done + written] == content;
          break;
        } else if written < 0 {
          return false;
        }
        done := done + written;
        sz := sz - written;
      }
      ok := true;
    }

    /** sendfile(2): moves some of what is left, at least one character if there is any, or fails. */
    method Send(target: Path, content: string, done: nat, sz: nat) returns (written: int)
      requires Valid() && done + sz == |content|
      modifies this
      ensures Valid() && -1 <= written <= sz && (sz > 0 ==> written != 0)
      ensures written >= 0 ==> files == old(files)[target := content[..done + written]]
      ensures written >= 0 ==> history == old(history) + [files] && faults == old(faults)
      ensures written < 0 ==> files == old(files) && history == old(history) && faults > old(faults)
    {
      var ok := Try();
      if ok {
        written :| 0 <= written <= sz && (sz > 0 ==> 0 < written);
        Write(target, content[..done + written]);
      } else {
        written := -1;
      }
    }

    /** copy_file_atomic, for a target that is not a directory. */
    method CopyFileAtomic(src: Path, target: Path) returns (ok: bool)
      requires Valid() && src != target && src != Tmp(target)
      modifies this
      ensures Valid() && Evolves(old(history), history, iset{target, Tmp(target)}) && faults >= old(faults)
      ensures ok ==> src in old(files) && files == (old(files) - {Tmp(target)})[target := old(files)[src]]
      ensures src in old(files) && faults == old(faults) ==> ok
      ensures forall i | |old(history)| <= i < |history| ::
                || Same(old(files), history[i], target)
                || (src in old(files) && CrashSafe(old(files), history[i], target, Tmp(target), old(files)[src]))
    {
      ghost var before, h0 := files, history;
      var tmp := Tmp(target);
      ghost var fp := iset{target, tmp};
      ok := CopyFile(src, tmp);
      assert Evolves(h0, history, fp);
      ghost var h1 := history;
      if !ok {
        var _ := Unlink(tmp);
        EvolvesThen(h0, h1, history, fp, iset{tmp}, fp);
        return false;
      }
      if target in files {
        ok := Unlink(target);
        EvolvesThen(h0, h1, history, fp, iset{target}, fp);
        if !ok {
          return false;
        }
      }
      ghost var h2 := history;
      ok := Try();
      if ok {
        files := (files - {tmp})[target := files[tmp]];
        history := history + [files];
        assert Evolves(h2, history, fp);
        EvolvesThen(h0, h2, history, fp, fp, fp);
      }
    }

    /** file_set_text: not atomic; at a crash the file may be missing or cut short. */
    method FileSetText(p: Path, text: string) returns (ok: bool)
      requires Valid()
      modifies this
      ensures Valid() && Evolves(old(history), history, iset{p}) && faults >= old(faults)
      ensures ok ==> files == old(files)[p := text]
      ensures faults == old(faults) ==> ok
      ensures forall i | |old(history)| <= i < |history| :: p in history[i] ==> history[i][p] <= text
    {
      ghost var h0 := history;
      if p in files {
        ok := Unlink(p);
        if !ok {
          return false;
        }
      }
      ghost var h1 := history;
      ok := Try();
      if ok {
        Write(p, "");
        ok := Try();
        var n: nat :| n <= |text| && (ok ==> n == |text|);
        Write(p, text[..n]);
        assert text[..|text|] == text;
        EvolvesThen(h0, h1, history, iset{p}, iset{p}, iset{p});
      }
    }
  }
}
