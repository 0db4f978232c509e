/**
 `resolve_path` of `kernel/filesystem/VFS.cpp` and `get_full_path` of `kernel/filesystem/LinkedInode.cpp`, with their
 loops.
 */
module PathResolution {
  import opened PathModel

  /** The most calls of `resolve_path` that a call at some level can lead to, itself included. */
  function MaxCalls(level: nat): nat
    decreases if level > RECURSION_LIMIT then 0 else RECURSION_LIMIT + 1 - level
  {
    if level > RECURSION_LIMIT then 1 else 1 + 2 * MaxCalls(level + 1)
  }

  /** A lookup starts at level 0. */
  lemma AtMost127Calls()
    ensures MaxCalls(0) == 127
  {
    assert MaxCalls(6) == 1 && MaxCalls(5) == 3 && MaxCalls(4) == 7;
    assert MaxCalls(3) == 15 && MaxCalls(2) == 31 && MaxCalls(1) == 63;
  }

  /** `path.find('/')`. */
  method FindSlash(path: string) returns (i: nat)
    ensures i == SlashIndex(path)
  {
    i := 0;
    while i < |path| && path[i] != '/'
      invariant i <= |path| && forall j: nat :: j < i ==> path[j] != '/'
    {
      i := i + 1;
    }
  }

  /** `resolve_path`: ends on every filesystem, cyclic links included, within the bounded number of calls. */
  method ResolvePath(fs: Fs, path: string, base: Node, options: Options, level: nat)
    returns (r: Result, ghost calls: nat)
    ensures r == Resolve(fs, path, base, options, level) && calls <= MaxCalls(level)
    decreases if level > RECURSION_LIMIT then 0 else RECURSION_LIMIT + 1 - level
  {
    calls := 1;
    if level > RECURSION_LIMIT {
      return Err(ELOOP), 1;
    }
    if path == "/" {
      return Ok(Root(fs.root)), 1;
    }
    var current := if path != "" && path[0] == '/' then Root(fs.root) else base;
    var rest := if path != "" && path[0] == '/' then path[1..] else path;
    while rest != ""
      invariant Resolve(fs, path, base, options, level) == Walk(fs, rest, current, options, level)
      decreases |rest|
    {
      if current.inode !in fs.inodes || !fs.inodes[current.inode].Directory? {
        return Err(ENOTDIR), 1;
      }
      if !fs.inodes[current.inode].executable {
        return Err(EACCES), 1;
      }
      var i := FindSlash(rest);
      var part := rest[..i];
      rest := if i < |rest| then rest[i + 1..] else "";
      if part == ".." {
        if current.Child? {
          current := current.parent;
        }
        continue;
      }
      if part == "." {
        continue;
      }
      if part !in fs.inodes[current.inode].entries {
        return Err(ENOENT), 1;
      }
      var child := fs.inodes[current.inode].entries[part];
      if child in fs.inodes && fs.inodes[child].Link? {
        r, calls := FollowLink(fs, fs.inodes[child].target, part, child, rest, current, options, level);
        return;
      }
      current := Enter(fs, current, part, child);
    }
    r := Ok(current);
  }

  /** A symbolic link: its target is resolved from the directory it is in, and then the rest of the path from there. */
  method FollowLink(fs: Fs, target: string, part: string, child: nat, rest: string, current: Node, options: Options,
                    level: nat)
    returns (r: Result, ghost calls: nat)
    requires level <= RECURSION_LIMIT
    ensures r == if rest == "" && options.noFollow then Err(ELOOP)
                 else if rest == "" && options.keepLink then Ok(Child(child, part, current))
                 else
                   var link := Resolve(fs, target, current, options, level + 1);
                   if rest == "" || link.Err? then link else Resolve(fs, rest, link.node, options, level + 1)
    ensures calls <= MaxCalls(level)
    decreases RECURSION_LIMIT + 1 - level, 0
  {
    hide Resolve;
    if rest == "" {
      if options.noFollow {
        return Err(ELOOP), 1;
      }
      if options.keepLink {
        return Ok(Child(child, part, current)), 1;
      }
    }
    var link, linkCalls := ResolvePath(fs, target, current, options, level + 1);
    if rest == "" || link.Err? {
      return link, 1 + linkCalls;
    }
    ghost var restCalls;
    r, restCalls := ResolvePath(fs, rest, link.node, options, level + 1);
    calls := 1 + linkCalls + restCalls;
  }

  /** The nodes from n to the root. */
  function Depth(n: Node): nat {
    if n.Root? then 1 else 1 + Depth(n.parent)
  }

  function Ancestor(n: Node, j: nat): Node
    requires j < Depth(n)
  {
    if j == 0 then n else Ancestor(n.parent, j - 1)
  }

  lemma {:induction false} AncestorNext(n: Node, j: nat)
    requires j < Depth(n)
    ensures Depth(Ancestor(n, j)) == Depth(n) - j
    ensures j + 1 < Depth(n) ==> Ancestor(n, j).Child? && Ancestor(n, j).parent == Ancestor(n, j + 1)
    ensures j + 1 == Depth(n) ==> Ancestor(n, j).Root?
  {
    if j > 0 {
      AncestorNext(n.parent, j - 1);
    }
  }

  /** `get_full_path`, with its array of 128 ancestors, which a longer chain writes past (`overran`). */
  method GetFullPath(n: Node) returns (path: string, overran: bool)
    ensures overran <==> Depth(n) > 128
    ensures !overran ==> path == FullPath(n)
  {
    if n.Root? {
      return "/", false;
    }
    var chain := new Node[128](_ => n);
    var ref, i := n, 0;
    chain[0], i := ref, 1;
    while ref.Child?
      invariant 1 <= i <= Depth(n) && i <= 128 && ref == Ancestor(n, i - 1)
      invariant forall j: nat :: j < i ==> chain[j] == Ancestor(n, j)
      decreases Depth(n) - i
    {
      AncestorNext(n, i - 1);
      if i == 128 {
        return "", true;
      }
      ref := ref.parent;
      chain[i] := ref;
      i := i + 1;
    }
    AncestorNext(n, i - 1);
    path, overran := "", false;
    i := i - 2;
    while i >= 0
      invariant -1 <= i < Depth(n) - 1 && path == Spell(Names(Ancestor(n, i + 1)))
      invariant forall j: nat :: j < Depth(n) ==> chain[j] == Ancestor(n, j)
    {
      AncestorNext(n, i);
      SpellSnoc(Names(Ancestor(n, i + 1)), Ancestor(n, i).name);
      path := path + "/" + chain[i].name;
      i := i - 1;
    }
  }
}
