/**
 Path resolution of `kernel/filesystem/VFS.cpp` as values: inodes by number, symbolic links, mounts, and nodes
 that remember the way they were reached.
 */
module PathModel {
  datatype Inode = Directory(entries: map<string, nat>, executable: bool) | Link(target: string) | File

  /** `mounts` leads from a directory to the root of the filesystem mounted on it. */
  datatype Fs = Fs(inodes: map<nat, Inode>, root: nat, mounts: map<nat, nat>)

  /** `LinkedInode`. */
  datatype Node = Root(inode: nat) | Child(inode: nat, name: string, parent: Node)

  datatype Error = ELOOP | ENOTDIR | EACCES | ENOENT

  datatype Result = Ok(node: Node) | Err(error: Error)

  datatype Options = Options(noFollow: bool, keepLink: bool)

  const RECURSION_LIMIT := 5

  /** Directory entries name existing inodes, with names a path can spell; mounts lead to existing inodes. */
  predicate FsOk(fs: Fs) {
    && fs.root in fs.inodes
    && (forall i :: i in fs.mounts ==> fs.mounts[i] in fs.inodes)
    && forall i :: i in fs.inodes && fs.inodes[i].Directory? ==> EntriesOk(fs, fs.inodes[i].entries)
  }

  predicate EntriesOk(fs: Fs, entries: map<string, nat>) {
    forall name :: name in entries ==> name != "" && entries[name] in fs.inodes
  }

  /** The place of the first slash; the length if there is none. */
  function SlashIndex(path: string): (i: nat)
    ensures i <= |path| && (i < |path| ==> path[i] == '/') && forall j: nat :: j < i ==> path[j] != '/'
  {
    if path == "" then 0
    else if path[0] == '/' then 0
    else
      var k := SlashIndex(path[1..]);
      assert forall j: nat :: 0 < j < k + 1 ==> path[j] == path[1..][j - 1];
      k + 1
  }

  function FirstPart(path: string): string { path[..SlashIndex(path)] }

  function AfterFirst(path: string): (rest: string)
    requires path != ""
    ensures |rest| < |path|
  {
    var i := SlashIndex(path);
    if i < |path| then path[i + 1..] else ""
  }

  /** The child reached through a directory entry, after following a mount on it. */
  function Enter(fs: Fs, parent: Node, name: string, inode: nat): Node {
    Child(if inode in fs.mounts then fs.mounts[inode] else inode, name, parent)
  }

  /** `resolve_path`. */
  function Resolve(fs: Fs, path: string, base: Node, options: Options, level: nat): Result
    decreases if level > RECURSION_LIMIT then 0 else RECURSION_LIMIT + 1 - level, |path| + 1
  {
    if level > RECURSION_LIMIT then Err(ELOOP)
    else if path == "/" then Ok(Root(fs.root))
    else if path != "" && path[0] == '/' then Walk(fs, path[1..], Root(fs.root), options, level)
    else Walk(fs, path, base, options, level)
  }

  /** Its loop, one part of the path at a time. */
  function Walk(fs: Fs, path: string, cur: Node, options: Options, level: nat): Result
    requires level <= RECURSION_LIMIT
    decreases RECURSION_LIMIT + 1 - level, |path|
  {
    if path == "" then Ok(cur)
    else if cur.inode !in fs.inodes || !fs.inodes[cur.inode].Directory? then Err(ENOTDIR)
    else if !fs.inodes[cur.inode].executable then Err(EACCES)
    else
      var part, rest := FirstPart(path), AfterFirst(path);
      var entries := fs.inodes[cur.inode].entries;
      if part == ".." then Walk(fs, rest, if cur.Child? then cur.parent else cur, options, level)
      else if part == "." then Walk(fs, rest, cur, options, level)
      else if part !in entries then Err(ENOENT)
      else
        var child := entries[part];
        if child in fs.inodes && fs.inodes[child].Link? then
          if rest == "" && options.noFollow then Err(ELOOP)
          else if rest == "" && options.keepLink then Ok(Child(child, part, cur))
          else
            var link := Resolve(fs, fs.inodes[child].target, cur, options, level + 1);
            if rest == "" || link.Err? then link
            else Resolve(fs, rest, link.node, options, level + 1)
        else Walk(fs, rest, Enter(fs, cur, part, child), options, level)
  }

  // ---------- Nodes and their full paths ----------

  /** Every step of the node's way is a directory entry that is no symbolic link, with mounts followed. */
  predicate Canonical(fs: Fs, n: Node) {
    match n
    case Root(inode) => inode == fs.root
    case Child(inode, name, parent) =>
      && Canonical(fs, parent)
      && parent.inode in fs.inodes && fs.inodes[parent.inode].Directory?
      && name in fs.inodes[parent.inode].entries && Plain(name)
      && var child := fs.inodes[parent.inode].entries[name];
         !(child in fs.inodes && fs.inodes[child].Link?) && n == Enter(fs, parent, name, child)
  }

  /** A name that a path part can be and that is looked up as an entry. */
  predicate Plain(name: string) {
    name != "" && name != "." && name != ".." && '/' !in name
  }

  lemma PartPlain(fs: Fs, path: string, entries: map<string, nat>)
    requires FirstPart(path) in entries && EntriesOk(fs, entries) && FirstPart(path) != "." && FirstPart(path) != ".."
    ensures Plain(FirstPart(path))
  {
  }

  /** The node is a symbolic link that was not followed, in a directory reached without any. */
  predicate KeptLink(fs: Fs, n: Node) {
    && n.Child? && Canonical(fs, n.parent)
    && n.parent.inode in fs.inodes && fs.inodes[n.parent.inode].Directory?
    && n.name in fs.inodes[n.parent.inode].entries && Plain(n.name)
    && fs.inodes[n.parent.inode].entries[n.name] == n.inode && n.inode in fs.inodes && fs.inodes[n.inode].Link?
  }

  predicate Reached(fs: Fs, n: Node, options: Options) {
    Canonical(fs, n) || (options.keepLink && KeptLink(fs, n))
  }

  /**
   A node returned without the keep-link option was reached without symbolic links on its recorded way. With that
   option it may also be a symbolic link in a directory that was.
   */
  lemma {:induction false} ResolveCanonical(fs: Fs, path: string, base: Node, options: Options, level: nat)
    requires FsOk(fs) && Reached(fs, base, options)
    ensures var r := Resolve(fs, path, base, options, level); r.Ok? ==> Reached(fs, r.node, options)
    decreases if level > RECURSION_LIMIT then 0 else RECURSION_LIMIT + 1 - level, |path| + 1
  {
    if level <= RECURSION_LIMIT {
      if path != "" && path[0] == '/' {
        WalkCanonical(fs, path[1..], Root(fs.root), options, level);
      } else {
        WalkCanonical(fs, path, base, options, level);
      }
    }
  }

  lemma {:induction false} WalkCanonical(fs: Fs, path: string, cur: Node, options: Options, level: nat)
    requires FsOk(fs) && Reached(fs, cur, options) && level <= RECURSION_LIMIT
    ensures var r := Walk(fs, path, cur, options, level); r.Ok? ==> Reached(fs, r.node, options)
    decreases RECURSION_LIMIT + 1 - level, |path|
  {
    hide Resolve, Plain, FirstPart;
    if path != "" && cur.inode in fs.inodes && fs.inodes[cur.inode].Directory? && fs.inodes[cur.inode].executable {
      var part, rest := FirstPart(path), AfterFirst(path);
      var entries := fs.inodes[cur.inode].entries;
      if part == ".." {
        WalkCanonical(fs, rest, if cur.Child? then cur.parent else cur, options, level);
      } else if part == "." {
        WalkCanonical(fs, rest, cur, options, level);
      } else if part in entries {
        var child := entries[part];
        PartPlain(fs, path, entries);
        if child in fs.inodes && fs.inodes[child].Link? {
          ResolveCanonical(fs, fs.inodes[child].target, cur, options, level + 1);
          var link := Resolve(fs, fs.inodes[child].target, cur, options, level + 1);
          if link.Ok? {
            ResolveCanonical(fs, rest, link.node, options, level + 1);
          }
        } else {
          WalkCanonical(fs, rest, Enter(fs, cur, part, child), options, level);
        }
      }
    }
  }

  /** The names on the way from the root. */
  function Names(n: Node): seq<string> {
    if n.Root? then [] else Names(n.parent) + [n.name]
  }

  /** The names with a slash before each. */
  function Spell(names: seq<string>): string {
    if names == [] then "" else "/" + names[0] + Spell(names[1..])
  }

  /** `get_full_path`. */
  function FullPath(n: Node): string {
    if n.Root? then "/" else Spell(Names(n))
  }

  /** Every directory on the way to the node can be searched. */
  predicate Searchable(fs: Fs, n: Node) {
    n.Child? ==>
      n.parent.inode in fs.inodes && fs.inodes[n.parent.inode].Directory? && fs.inodes[n.parent.inode].executable
      && Searchable(fs, n.parent)
  }

  lemma {:induction false} SpellSnoc(names: seq<string>, name: string)
    ensures Spell(names + [name]) == Spell(names) + "/" + name
  {
    if names == [] {
      assert names + [name] == [name] && [name][1..] == [];
    } else {
      SpellSnoc(names[1..], name);
      assert (names + [name])[1..] == names[1..] + [name];
    }
  }

  /** The path behind a slash. */
  function Strip(suffix: string): string { if suffix == "" then "" else suffix[1..] }

  lemma PartIs(name: string, suffix: string)
    requires name != "" && '/' !in name && (suffix == "" || suffix[0] == '/')
    ensures name + suffix != "" && FirstPart(name + suffix) == name && AfterFirst(name + suffix) == Strip(suffix)
  {
    var path := name + suffix;
    var i := SlashIndex(path);
    assert forall j: nat :: j < |name| ==> path[j] == name[j];
    assert suffix != "" ==> path[|name|] == '/';
    assert i == |name|;
  }

  /** One name is walked over by entering the child it names. */
  lemma WalkStep(fs: Fs, n: Node, suffix: string, options: Options, level: nat)
    requires Canonical(fs, n) && Searchable(fs, n) && n.Child? && (suffix == "" || suffix[0] == '/')
             && level <= RECURSION_LIMIT
    ensures Walk(fs, n.name + suffix, n.parent, options, level) == Walk(fs, Strip(suffix), n, options, level)
  {
    PartIs(n.name, suffix);
  }

  /** Walking the spelled way of a node from the root arrives at the node. */
  lemma {:induction false} WalkTo(fs: Fs, n: Node, suffix: string, options: Options, level: nat)
    requires Canonical(fs, n) && Searchable(fs, n) && n.Child? && (suffix == "" || suffix[0] == '/')
             && level <= RECURSION_LIMIT
    ensures |Spell(Names(n))| > 1 && Spell(Names(n))[0] == '/'
    ensures Walk(fs, Spell(Names(n))[1..] + suffix, Root(fs.root), options, level) ==
              Walk(fs, Strip(suffix), n, options, level)
    decreases n
  {
    hide Walk;
    SpellSnoc(Names(n.parent), n.name);
    WalkStep(fs, n, suffix, options, level);
    assert n.name != "" && Spell([]) == "";
    if n.parent.Root? {
      assert Spell(Names(n)) == "/" + n.name;
      hide *;
      assert ("/" + n.name)[1..] + suffix == n.name + suffix;
    } else {
      assert Canonical(fs, n.parent) && Searchable(fs, n.parent);
      hide *;
      WalkTo(fs, n.parent, "/" + n.name + suffix, options, level);
      Respell(Spell(Names(n.parent)), n.name, suffix);
      StripSlash(n.name + suffix);
      assert "/" + n.name + suffix == "/" + (n.name + suffix);
    }
  }

  lemma Respell(up: string, name: string, suffix: string)
    requires |up| > 0
    ensures (up + "/" + name)[1..] + suffix == up[1..] + ("/" + name + suffix)
  {
  }

  lemma StripSlash(path: string)
    ensures Strip("/" + path) == path
  {
  }

  /** The full path of a canonical node resolves to that node, with its whole way, from anywhere. */
  lemma FullPathResolves(fs: Fs, n: Node, base: Node, options: Options, level: nat)
    requires Canonical(fs, n) && Searchable(fs, n) && level <= RECURSION_LIMIT
    ensures Resolve(fs, FullPath(n), base, options, level) == Ok(n)
  {
    if n.Child? {
      WalkTo(fs, n, "", options, level);
      assert Spell(Names(n))[1..] + "" == Spell(Names(n))[1..];
    }
  }

  /** The full path of a node whose parent is canonical is walked as far as that parent. */
  lemma WalkToParent(fs: Fs, n: Node, base: Node, options: Options, level: nat)
    requires n.Child? && Canonical(fs, n.parent) && Searchable(fs, n.parent) && Plain(n.name)
             && level <= RECURSION_LIMIT
    ensures Resolve(fs, FullPath(n), base, options, level) == Walk(fs, n.name, n.parent, options, level)
  {
    hide Walk;
    SpellSnoc(Names(n.parent), n.name);
    if n.parent.Root? {
      assert Spell(Names(n)) == "/" + n.name && ("/" + n.name)[1..] == n.name;
    } else {
      WalkTo(fs, n.parent, "/" + n.name, options, level);
      StripSlash(n.name);
      Respell(Spell(Names(n.parent)), n.name, "");
      assert (Spell(Names(n.parent)) + "/" + n.name)[1..] + "" == (Spell(Names(n.parent)) + "/" + n.name)[1..];
      assert "/" + n.name + "" == "/" + n.name;
    }
  }

  /**
   The full path of a kept link leads back to the link exactly when links are kept then too, and not refused;
   otherwise it leads to what the link points to, or to an error.
   */
  lemma KeptLinkResolves(fs: Fs, n: Node, base: Node, options: Options, level: nat)
    requires FsOk(fs) && KeptLink(fs, n) && Searchable(fs, n) && level <= RECURSION_LIMIT
    ensures Resolve(fs, FullPath(n), base, options, level) == Ok(n) <==> options.keepLink && !options.noFollow
  {
    WalkToParent(fs, n, base, options, level);
    PartIs(n.name, "");
    assert n.name + "" == n.name;
    ResolveCanonical(fs, fs.inodes[n.inode].target, n.parent, options, level + 1);
  }

  /**
   Resolving the full path of a node that a resolution returned gives the same node and the same parents, exactly
   when the node is no symbolic link or links are kept and not refused.
   */
  lemma RoundTrip(fs: Fs, path: string, base: Node, options: Options, level: nat, base': Node, options': Options,
                  level': nat)
    requires FsOk(fs) && Canonical(fs, base) && level' <= RECURSION_LIMIT
    requires var r := Resolve(fs, path, base, options, level); r.Ok? && Searchable(fs, r.node)
    ensures var n := Resolve(fs, path, base, options, level).node;
            && (KeptLink(fs, n) ==> options.keepLink)
            && (Resolve(fs, FullPath(n), base', options', level') == Ok(n) <==>
                !KeptLink(fs, n) || (options'.keepLink && !options'.noFollow))
  {
    hide Resolve;
    ResolveCanonical(fs, path, base, options, level);
    var n := Resolve(fs, path, base, options, level).node;
    if Canonical(fs, n) {
      FullPathResolves(fs, n, base', options', level');
    } else {
      KeptLinkResolves(fs, n, base', options', level');
    }
  }

  /** A kept link and its two resolutions. */
  lemma KeptLinkDiffers()
    ensures var fs := Fs(map[1 := Directory(map["l" := 2, "f" := 3], true), 2 := Link("f"), 3 := File], 1, map[]);
            var kept := Resolve(fs, "l", Root(1), Options(false, true), 0);
            && FsOk(fs) && kept == Ok(Child(2, "l", Root(1)))
            && Resolve(fs, "/l", Root(1), Options(false, false), 0) == Ok(Child(3, "f", Root(1)))
  {
    var fs := Fs(map[1 := Directory(map["l" := 2, "f" := 3], true), 2 := Link("f"), 3 := File], 1, map[]);
    PartIs("l", "");
    PartIs("f", "");
    assert "l" + "" == "l" && "f" + "" == "f" && "/l"[1..] == "l";
    var o := Options(false, false);
    assert Walk(fs, "f", Root(1), o, 1) == Walk(fs, "", Child(3, "f", Root(1)), o, 1);
    assert Resolve(fs, "f", Root(1), o, 1) == Ok(Child(3, "f", Root(1)));
  }

  // ---------- What a path means ----------

  /** The way to a node as a path; empty for the root. */
  function PathTo(n: Node): string { Spell(Names(n)) }

  /** A path that starts where it is resolved from. */
  predicate Relative(path: string) { path == "" || path[0] != '/' }

  lemma RelativeWalk(fs: Fs, path: string, base: Node, options: Options, level: nat)
    requires Relative(path) && level <= RECURSION_LIMIT
    ensures Resolve(fs, path, base, options, level) == Walk(fs, path, base, options, level)
  {
  }

  /** Behind the path to a node, a path is resolved from that node. */
  lemma FromNode(fs: Fs, n: Node, path: string, base: Node, options: Options, level: nat)
    requires Canonical(fs, n) && Searchable(fs, n) && level <= RECURSION_LIMIT
    ensures Resolve(fs, PathTo(n) + "/" + path, base, options, level) == Walk(fs, path, n, options, level)
  {
    var whole := PathTo(n) + "/" + path;
    assert Spell([]) == "";
    if n.Root? {
      assert whole == "/" + path && whole[1..] == path;
    } else {
      WalkTo(fs, n, "/" + path, options, level);
      StripSlash(path);
      var way := Spell(Names(n));
      assert whole[1..] == way[1..] + ("/" + path);
    }
  }

  /** Where one name leads from a node, told apart from the rest of the path. */
  datatype Hop = Stay(node: Node) | Follow(link: nat) | Fail(error: Error)

  function HopFrom(fs: Fs, n: Node, name: string): (hop: Hop)
    ensures hop.Follow? ==> hop.link in fs.inodes && fs.inodes[hop.link].Link?
  {
    if n.inode !in fs.inodes || !fs.inodes[n.inode].Directory? then Fail(ENOTDIR)
    else if !fs.inodes[n.inode].executable then Fail(EACCES)
    else if name == "." then Stay(n)
    else if name == ".." then Stay(if n.Root? then n else n.parent)
    else if name !in fs.inodes[n.inode].entries then Fail(ENOENT)
    else
      var child := fs.inodes[n.inode].entries[name];
      if child in fs.inodes && fs.inodes[child].Link? then Follow(child)
      else Stay(Child(if child in fs.mounts then fs.mounts[child] else child, name, n))
  }

  /** One part of a path, in terms of where its name leads. */
  lemma WalkHop(fs: Fs, path: string, cur: Node, options: Options, level: nat)
    requires path != "" && level <= RECURSION_LIMIT
    ensures var name, rest := FirstPart(path), AfterFirst(path);
            var hop := HopFrom(fs, cur, name);
            Walk(fs, path, cur, options, level) ==
              if hop.Fail? then Err(hop.error)
              else if hop.Stay? then Walk(fs, rest, hop.node, options, level)
              else if rest == "" && options.noFollow then Err(ELOOP)
              else if rest == "" && options.keepLink then Ok(Child(hop.link, name, cur))
              else
                var link := Resolve(fs, fs.inodes[hop.link].target, cur, options, level + 1);
                if rest == "" || link.Err? then link else Resolve(fs, rest, link.node, options, level + 1)
  {
    hide Resolve;
  }

  /**
   A path of one name behind the path to a node: where the name leads, with a symbolic link refused, kept, or followed
   from the directory it is in.
   */
  lemma LastName(fs: Fs, n: Node, name: string, base: Node, options: Options, level: nat)
    requires Canonical(fs, n) && Searchable(fs, n) && level <= RECURSION_LIMIT && name != "" && '/' !in name
    ensures var hop := HopFrom(fs, n, name);
            Resolve(fs, PathTo(n) + "/" + name, base, options, level) ==
              if hop.Fail? then Err(hop.error)
              else if hop.Stay? then Ok(hop.node)
              else if options.noFollow then Err(ELOOP)
              else if options.keepLink then Ok(Child(hop.link, name, n))
              else Resolve(fs, fs.inodes[hop.link].target, n, options, level + 1)
  {
    FromNode(fs, n, name, base, options, level);
    hide Resolve, HopFrom;
    PartIs(name, "");
    assert name + "" == name;
    WalkHop(fs, name, n, options, level);
  }

  lemma Regroup(way: string, name: string, path: string)
    ensures way + "/" + (name + "/" + path) == way + "/" + name + "/" + path && name + ("/" + path) == name + "/" + path
  {
  }

  /** The same with more of the path behind the name: a link is always followed, and the rest taken from there. */
  lemma NextName(fs: Fs, n: Node, name: string, path: string, base: Node, options: Options, level: nat)
    requires Canonical(fs, n) && Searchable(fs, n) && level <= RECURSION_LIMIT
    requires name != "" && '/' !in name && path != ""
    ensures var hop := HopFrom(fs, n, name);
            Resolve(fs, PathTo(n) + "/" + name + "/" + path, base, options, level) ==
              if hop.Fail? then Err(hop.error)
              else if hop.Stay? then Walk(fs, path, hop.node, options, level)
              else
                var link := Resolve(fs, fs.inodes[hop.link].target, n, options, level + 1);
                if link.Err? then link else Resolve(fs, path, link.node, options, level + 1)
  {
    hide *;
    FromNode(fs, n, name + "/" + path, base, options, level);
    Regroup(PathTo(n), name, path);
    PartIs(name, "/" + path);
    StripSlash(path);
    WalkHop(fs, name + "/" + path, n, options, level);
  }

  /** The parent's path, and the node's own, told by dots; the root is its own parent. */
  lemma Dots(fs: Fs, n: Node, base: Node, options: Options, level: nat)
    requires Canonical(fs, n) && Searchable(fs, n) && level <= RECURSION_LIMIT
    requires n.inode in fs.inodes && fs.inodes[n.inode].Directory? && fs.inodes[n.inode].executable
    ensures Resolve(fs, PathTo(n) + "/..", base, options, level) == Ok(if n.Root? then n else n.parent)
    ensures Resolve(fs, PathTo(n) + "/.", base, options, level) == Ok(n)
  {
    hide Resolve;
    LastName(fs, n, "..", base, options, level);
    LastName(fs, n, ".", base, options, level);
    assert PathTo(n) + "/" + ".." == PathTo(n) + "/.." && PathTo(n) + "/" + "." == PathTo(n) + "/.";
  }

  /** Going into a directory and up again is as good as not going there. */
  lemma UpAgain(fs: Fs, n: Node, path: string, base: Node, options: Options, level: nat)
    requires Canonical(fs, n) && Searchable(fs, n) && level <= RECURSION_LIMIT && n.Child? && path != ""
    requires n.inode in fs.inodes && fs.inodes[n.inode].Directory? && fs.inodes[n.inode].executable
    ensures Resolve(fs, PathTo(n) + "/../" + path, base, options, level) ==
            Resolve(fs, PathTo(n.parent) + "/" + path, base, options, level)
  {
    hide Resolve;
    NextName(fs, n, "..", path, base, options, level);
    FromNode(fs, n.parent, path, base, options, level);
    assert PathTo(n) + "/" + ".." + "/" + path == PathTo(n) + "/../" + path;
  }

  /** A symbolic link to itself is never resolved. */
  lemma {:induction false} SelfLink(fs: Fs, n: Node, name: string, level: nat)
    requires HopFrom(fs, n, name).Follow? && fs.inodes[HopFrom(fs, n, name).link].target == name
    requires name != "" && '/' !in name
    ensures Resolve(fs, name, n, Options(false, false), level) == Err(ELOOP)
    decreases if level > RECURSION_LIMIT then 0 else RECURSION_LIMIT + 1 - level
  {
    if level <= RECURSION_LIMIT {
      SelfLink(fs, n, name, level + 1);
      PartIs(name, "");
      assert name + "" == name;
    }
  }

  // ---------- Paths in two parts ----------

  /** How many symbolic links the path meets, not counting those inside their targets. */
  function Hops(fs: Fs, path: string, cur: Node, options: Options, level: nat): nat
    requires level <= RECURSION_LIMIT
    decreases RECURSION_LIMIT + 1 - level, |path|
  {
    if path == "" then 0
    else
      var name, rest := FirstPart(path), AfterFirst(path);
      match HopFrom(fs, cur, name)
      case Fail(_) => 0
      case Stay(m) => Hops(fs, rest, m, options, level)
      case Follow(l) =>
        var link := Resolve(fs, fs.inodes[l].target, cur, options, level + 1);
        if link.Err? || rest == "" || level == RECURSION_LIMIT then 1
        else if rest[0] == '/' then 1 + Hops(fs, rest[1..], Root(fs.root), options, level + 1)
        else 1 + Hops(fs, rest, link.node, options, level + 1)
  }

  /** A path that another can follow behind a slash. */
  predicate Open(path: string) { path != "" && path[|path| - 1] != '/' }

  lemma SlashIs(path: string, i: nat)
    requires i < |path| && path[i] == '/' && forall j: nat :: j < i ==> path[j] != '/'
    ensures SlashIndex(path) == i
  {
  }

  lemma OpenParts(path: string, more: string)
    requires Open(path)
    ensures var whole := path + "/" + more;
            FirstPart(whole) == FirstPart(path)
            && AfterFirst(whole) == if AfterFirst(path) == "" then more else AfterFirst(path) + "/" + more
    ensures AfterFirst(path) == "" || Open(AfterFirst(path))
  {
    var whole := path + "/" + more;
    var i := SlashIndex(path);
    assert forall j: nat :: j < |path| ==> whole[j] == path[j];
    assert whole[i] == '/';
    SlashIs(whole, i);
    hide SlashIndex;
    assert whole[..i] == path[..i];
    assert whole[i + 1..] == if i < |path| then path[i + 1..] + "/" + more else more;
  }

  /** The outcome of the first part, and then the second part from there, with one level less for each link met. */
  function Then(fs: Fs, first: Result, hops: nat, path: string, options: Options, level: nat): Result {
    if first.Err? then first
    else if level + hops > RECURSION_LIMIT then Err(ELOOP)
    else Walk(fs, path, first.node, options, level + hops)
  }

  lemma HopsNext(fs: Fs, path: string, cur: Node, options: Options, level: nat)
    requires path != "" && level <= RECURSION_LIMIT
    ensures var hop, rest := HopFrom(fs, cur, FirstPart(path)), AfterFirst(path);
            Hops(fs, path, cur, options, level) ==
              if hop.Fail? then 0
              else if hop.Stay? then Hops(fs, rest, hop.node, options, level)
              else
                var link := Resolve(fs, fs.inodes[hop.link].target, cur, options, level + 1);
                if link.Err? || rest == "" || level == RECURSION_LIMIT then 1
                else if rest[0] == '/' then 1 + Hops(fs, rest[1..], Root(fs.root), options, level + 1)
                else 1 + Hops(fs, rest, link.node, options, level + 1)
  {
    hide Resolve;
  }

  lemma WalkNothing(fs: Fs, cur: Node, options: Options, level: nat)
    requires level <= RECURSION_LIMIT
    ensures Walk(fs, "", cur, options, level) == Ok(cur) && Hops(fs, "", cur, options, level) == 0
  {
  }

  /** Resolving a path in two parts, when symbolic links are followed. */
  lemma {:induction false} WalkThen(fs: Fs, path: string, more: string, cur: Node, level: nat)
    requires Open(path) && more != "" && Relative(more) && level <= RECURSION_LIMIT
    ensures var o := Options(false, false);
            Walk(fs, path + "/" + more, cur, o, level) ==
              Then(fs, Walk(fs, path, cur, o, level), Hops(fs, path, cur, o, level), more, o, level)
    decreases RECURSION_LIMIT + 1 - level, |path|
  {
    hide HopFrom, Resolve, Walk, FirstPart, AfterFirst, Hops;
    var o, whole := Options(false, false), path + "/" + more;
    var hop, rest := HopFrom(fs, cur, FirstPart(path)), AfterFirst(path);
    OpenParts(path, more);
    WalkHop(fs, path, cur, o, level);
    WalkHop(fs, whole, cur, o, level);
    HopsNext(fs, path, cur, o, level);
    if hop.Stay? {
      if rest != "" {
        WalkThen(fs, rest, more, hop.node, level);
      } else {
        WalkNothing(fs, hop.node, o, level);
      }
    } else if hop.Follow? {
      FollowThen(fs, rest, more, cur, fs.inodes[hop.link].target, level);
    }
  }

  /** A symbolic link, what it leads to, and the rest of the first part from there. */
  lemma {:induction false} FollowThen(fs: Fs, rest: string, more: string, cur: Node, target: string, level: nat)
    requires (rest == "" || Open(rest)) && more != "" && Relative(more) && level <= RECURSION_LIMIT
    ensures var o := Options(false, false);
            var link := Resolve(fs, target, cur, o, level + 1);
            var first :=
              if rest == "" || link.Err? then link else Resolve(fs, rest, link.node, o, level + 1);
            var hops :=
              if link.Err? || rest == "" || level == RECURSION_LIMIT then 1
              else if rest[0] == '/' then 1 + Hops(fs, rest[1..], Root(fs.root), o, level + 1)
              else 1 + Hops(fs, rest, link.node, o, level + 1);
            (if link.Err? then link
             else Resolve(fs, if rest == "" then more else rest + "/" + more, link.node, o, level + 1)) ==
            Then(fs, first, hops, more, o, level)
    decreases RECURSION_LIMIT + 1 - level, 0
  {
    hide HopFrom, Resolve, Walk, Hops;
    var o := Options(false, false);
    AtLimit(fs, target, cur, o, level + 1);
    var link := Resolve(fs, target, cur, o, level + 1);
    if link.Ok? {
      if rest == "" {
        RelativeWalk(fs, more, link.node, o, level + 1);
      } else {
        ResolveThen(fs, rest, more, link.node, level + 1);
      }
    }
  }

  lemma AtLimit(fs: Fs, path: string, base: Node, options: Options, level: nat)
    ensures level > RECURSION_LIMIT ==> Resolve(fs, path, base, options, level) == Err(ELOOP)
  {
  }

  /** The same from any start: a path in two parts is resolved part by part. */
  lemma {:induction false} ResolveThen(fs: Fs, path: string, more: string, base: Node, level: nat)
    requires Open(path) && more != "" && Relative(more) && level <= RECURSION_LIMIT
    ensures var o := Options(false, false);
            var hops :=
              if Relative(path) then Hops(fs, path, base, o, level) else Hops(fs, path[1..], Root(fs.root), o, level);
            Resolve(fs, path + "/" + more, base, o, level) ==
              Then(fs, Resolve(fs, path, base, o, level), hops, more, o, level)
    decreases RECURSION_LIMIT + 1 - level, |path| + 1
  {
    if Relative(path) {
      WalkThen(fs, path, more, base, level);
    } else {
      assert (path + "/" + more)[1..] == path[1..] + "/" + more;
      WalkThen(fs, path[1..], more, Root(fs.root), level);
    }
  }
}
