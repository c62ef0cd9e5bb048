/**
  The path of a generated script: directory, scene name and time of creation, printed
  into one buffer, and taken apart again.
  */
module ScriptPath {
  import opened CStrings
  import opened Numerals

  const MAXCMDLEN: nat := 1024

  /** strrchr(): the position of the last c, or |s|. */
  function LastIndex(s: string, c: char): (n: nat)
    ensures n <= |s|
    ensures n < |s| ==> s[n] == c && c !in s[n + 1..]
    ensures n == |s| ==> c !in s
  {
    if s == "" then 0
    else
      var k := |s| - 1;
      if s[k] == c then k
      else
        var n := LastIndex(s[..k], c);
        if n == k then |s| else n
  }

  lemma {:induction false} LastIndexBefore(head: string, c: char, tail: string)
    requires c !in tail
    ensures LastIndex(head + [c] + tail, c) == |head|
    decreases |tail|
  {
    var s := head + [c] + tail;
    if tail != "" {
      var k := |tail| - 1;
      assert tail[k] in tail && s[|s| - 1] == tail[k];
      LastIndexBefore(head, c, tail[..k]);
      assert s[..|s| - 1] == head + [c] + tail[..k];
    }
  }

  /** The scene's file name without its path: all that follows a front part that is empty or ends
      in '/'. */
  function BaseName(scene: string): (base: string)
    ensures '/' !in base && |base| <= |scene|
    ensures var front := scene[..|scene| - |base|];
            scene == front + base && (front == "" || front[|front| - 1] == '/')
  {
    var p := LastIndex(scene, '/');
    if p < |scene| then scene[p + 1..] else scene
  }

  /** "%s/%s.%lX" */
  function PathText(dir: string, base: string, time: nat): string {
    dir + "/" + base + "." + Print(time, 16)
  }

  datatype Parts = Parts(dir: string, base: string, time: nat)

  /** Splits a path at its last '/' and its last '.'. */
  function Decode(path: string): Parts {
    var slash, dot := LastIndex(path, '/'), LastIndex(path, '.');
    if slash < dot < |path| then Parts(path[..slash], path[slash + 1..dot], Value(path[dot + 1..], 16))
    else Parts("", path, 0)
  }

  lemma HexHasNoMarks(time: nat)
    ensures var hex := Print(time, 16);
            '/' !in hex && '.' !in hex && NUL !in hex
  {
    var hex := Print(time, 16);
    PrintRoundTrip(time, 16);
    forall c | c in hex ensures c != '/' && c != '.' && c != NUL {
      NumeralChars(hex, 16, c);
    }
  }

  lemma MarksFound(dir: string, base: string, hex: string)
    requires '/' !in base && '/' !in hex && '.' !in hex
    ensures var path := dir + "/" + base + "." + hex;
            LastIndex(path, '/') == |dir| && LastIndex(path, '.') == |dir| + 1 + |base|
  {
    var path := dir + "/" + base + "." + hex;
    var tail := base + "." + hex;
    assert path == dir + ['/'] + tail;
    LastIndexBefore(dir, '/', tail);
    var head := dir + "/" + base;
    assert path == head + ['.'] + hex;
    LastIndexBefore(head, '.', hex);
  }

  lemma PiecesFound(dir: string, base: string, hex: string)
    ensures var path := dir + "/" + base + "." + hex;
            && path[..|dir|] == dir
            && path[|dir| + 1..|dir| + 1 + |base|] == base
            && path[|dir| + 1 + |base| + 1..] == hex
  {
  }

  lemma DecodesTo(dir: string, base: string, hex: string)
    requires '/' !in base && '/' !in hex && '.' !in hex
    ensures Decode(dir + "/" + base + "." + hex) == Parts(dir, base, Value(hex, 16))
  {
    MarksFound(dir, base, hex);
    PiecesFound(dir, base, hex);
  }

  /** The path tells where the script is, which scene it renders and when it was made. */
  lemma PathDecodes(dir: string, base: string, time: nat)
    requires '/' !in base
    ensures Decode(PathText(dir, base, time)) == Parts(dir, base, time)
  {
    HexHasNoMarks(time);
    PrintRoundTrip(time, 16);
    DecodesTo(dir, base, Print(time, 16));
  }

  /** Different scripts never share a path. */
  lemma PathsDiffer(p: Parts, q: Parts)
    requires '/' !in p.base && '/' !in q.base
    requires PathText(p.dir, p.base, p.time) == PathText(q.dir, q.base, q.time)
    ensures p == q
  {
    PathDecodes(p.dir, p.base, p.time);
    PathDecodes(q.dir, q.base, q.time);
  }

  /** The scene up to its file name. */
  function Front(scene: string): string {
    scene[..|scene| - |BaseName(scene)|]
  }

  /** Two scripts share a path exactly when directory, file name of the scene and time agree; two
      scenes of the same directory only if they are the same scene. */
  lemma ScriptsShareIff(dirA: string, sceneA: string, timeA: nat, dirB: string, sceneB: string, timeB: nat)
    ensures PathText(dirA, BaseName(sceneA), timeA) == PathText(dirB, BaseName(sceneB), timeB) <==>
              dirA == dirB && BaseName(sceneA) == BaseName(sceneB) && timeA == timeB
    ensures Front(sceneA) == Front(sceneB) ==>
              (PathText(dirA, BaseName(sceneA), timeA) == PathText(dirB, BaseName(sceneB), timeB) <==>
                 dirA == dirB && sceneA == sceneB && timeA == timeB)
  {
    var a, b := Parts(dirA, BaseName(sceneA), timeA), Parts(dirB, BaseName(sceneB), timeB);
    if PathText(dirA, a.base, timeA) == PathText(dirB, b.base, timeB) {
      PathsDiffer(a, b);
      assert a == b;
    }
    assert sceneA == Front(sceneA) + BaseName(sceneA) && sceneB == Front(sceneB) + BaseName(sceneB);
  }

  /* Paths that do not fit */

  lemma {:induction false} CutMarks(s: string, c: char, n: nat)
    requires LastIndex(s, c) < n <= |s|
    ensures LastIndex(s[..n], c) == LastIndex(s, c)
    decreases |s|
  {
    if n == |s| {
      assert s[..n] == s;
    } else {
      var k := |s| - 1;
      assert s[k] != c || LastIndex(s, c) == k;
      CutMarks(s[..k], c, n);
      assert s[..k][..n] == s[..n];
    }
  }

  lemma Grows(v: nat, base: Base)
    ensures v * base >= 2 * v
  {
    assert v * base == 2 * v + v * (base - 2);
  }

  /** Digits cut from a numeral make it smaller. */
  lemma {:induction false} CutNumeral(s: string, base: Base, n: nat)
    requires n <= |s|
    ensures Value(s[..n], base) <= Value(s, base)
    ensures n < |s| && Value(s[..n], base) > 0 ==> Value(s[..n], base) < Value(s, base)
    decreases |s|
  {
    if n == |s| {
      assert s[..n] == s;
    } else {
      var front := s[..|s| - 1];
      CutNumeral(front, base, n);
      assert front[..n] == s[..n];
      Grows(Value(front, base), base);
    }
  }

  /** A cut numeral has its old value only if that is 0 and its one digit is gone. */
  lemma CutTime(time: nat, n: nat)
    requires n < |Print(time, 16)|
    ensures Value(Print(time, 16)[..n], 16) == time <==> time == 0 && n == 0
  {
    var hex := Print(time, 16);
    PrintRoundTrip(time, 16);
    CutNumeral(hex, 16, n);
    if time > 0 {
      assert Value(hex[..n], 16) < Value(hex, 16);
    }
  }

  /** A path cut in the directory or the scene name shows another directory or scene name. */
  lemma CutBeforeTime(dir: string, base: string, time: nat, n: nat)
    requires '/' !in base && 0 < n <= |dir| + 1 + |base|
    ensures Decode(PathText(dir, base, time)[..n]) != Parts(dir, base, time)
  {
    var path := PathText(dir, base, time);
    var cut := path[..n];
    var slash, dot := LastIndex(cut, '/'), LastIndex(cut, '.');
    assert path[|dir|] == '/';
    if slash < dot < n {
      if n > |dir| + 1 {
        HexHasNoMarks(time);
        MarksFound(dir, base, Print(time, 16));
        CutMarks(path, '/', n);
        assert |cut[slash + 1..dot]| < |base|;
      } else {
        assert |cut[..slash]| < |dir|;
      }
    } else if n > |dir| {
      assert cut[|dir|] == '/' && '/' in cut;
    }
  }

  lemma CutInTime(dir: string, base: string, time: nat, n: nat)
    requires '/' !in base && |dir| + 1 + |base| < n < |PathText(dir, base, time)|
    ensures Decode(PathText(dir, base, time)[..n]) ==
              Parts(dir, base, Value(Print(time, 16)[..n - |dir| - |base| - 2], 16))
  {
    var hex := Print(time, 16);
    var rest := hex[..n - |dir| - |base| - 2];
    HexHasNoMarks(time);
    assert forall c <- rest :: c in hex;
    assert PathText(dir, base, time)[..n] == dir + "/" + base + "." + rest;
    DecodesTo(dir, base, rest);
  }

  /** A path that was cut decodes wrongly, unless all it lost is the one digit of time 0. */
  lemma CutDecodesIff(dir: string, base: string, time: nat, n: nat)
    requires '/' !in base && 0 < n < |PathText(dir, base, time)|
    ensures Decode(PathText(dir, base, time)[..n]) == Parts(dir, base, time) <==>
              time == 0 && n + 1 == |PathText(dir, base, time)|
  {
    if n <= |dir| + 1 + |base| {
      CutBeforeTime(dir, base, time, n);
    } else {
      CutInTime(dir, base, time, n);
      CutTime(time, n - |dir| - |base| - 2);
    }
  }

  /** The room snprintf(filename, BUFFERLEN - 1, ...) leaves for text. */
  const ROOM: nat := BUFFERLEN - 2

  /** blendersg_create() up to the path: fails on an empty scene, and otherwise leaves in the static
      buffer the path, or as much of it as fits.  The copy of the scene into its own buffer is
      whole for scenes shorter than MAXCMDLEN - 1. */
  method ScriptName(filename: array<char>, scriptdir: string, scene: string, time: nat) returns (ok: bool)
    requires filename.Length == BUFFERLEN
    requires NUL !in scriptdir && NUL !in scene && |scene| < MAXCMDLEN - 1
    modifies filename
    ensures ok <==> scene != ""
    ensures !ok ==> filename[..] == old(filename[..])
    ensures ok ==>
              var path := PathText(scriptdir, BaseName(scene), time);
              CString(filename[..]) == if |path| <= ROOM then path else path[..ROOM]
    ensures ok ==>
              var size := |PathText(scriptdir, BaseName(scene), time)|;
              Decode(CString(filename[..])) == Parts(scriptdir, BaseName(scene), time) <==>
                size <= ROOM || (size == ROOM + 1 && time == 0)
  {
    if |scene| == 0 {
      return false;
    }
    var p := LastIndex(scene, '/');
    var base := if p < |scene| then scene[p + 1..] else scene;
    HexHasNoMarks(time);
    Snprintf(filename, BUFFERLEN - 1, scriptdir + "/" + base + "." + Print(time, 16));
    PathDecodes(scriptdir, base, time);
    if |PathText(scriptdir, base, time)| > ROOM {
      CutDecodesIff(scriptdir, base, time, ROOM);
    }
    ok := true;
  }
}
