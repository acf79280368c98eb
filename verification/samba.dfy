/**
 Probing a host for SMB endpoints and listing the shares of one endpoint. The
 SMB client library is replaced by two oracles: `opendir`, the handle
 `smbc_opendir` returns for a URL (negative on failure), and `readdir`, the
 names `smbc_readdir` yields, in order, for the directory opened at a URL.
 */
module Samba {
  import opened Text

  datatype SambaShare = SambaShare(name: string, path: string)

  /** A file entry; its `size` is kept as text, as the record declares it. No modelled operation builds one. */
  datatype FileInfo = FileInfo(name: string, size: string)

  type Opendir = string -> int
  type Readdir = string -> seq<string>

  const StandardPort := 445
  const ExtraPortFirst := 4455
  const ExtraPortLast := 4464

  /** The probe and listing URL of a host and port: "smb://" ip ":" port "/". */
  function ServerUrl(ip: string, port: int): string {
    "smb://" + ip + ":" + IntText(port) + "/"
  }

  /** Different ports of one host never share a probe URL. */
  lemma ServerUrlInjective(ip: string, p: int, q: int)
    requires ServerUrl(ip, p) == ServerUrl(ip, q)
    ensures p == q
  {
    var prefix := "smb://" + ip + ":";
    var u := ServerUrl(ip, p);
    assert u == prefix + IntText(p) + "/";
    assert u[|prefix|..|u| - 1] == IntText(p);
    assert ServerUrl(ip, q) == prefix + IntText(q) + "/";
    assert u[|prefix|..|u| - 1] == IntText(q);
    IntTextInjective(p, q);
  }

  /** A port is live when the root directory opens; its shares are not listed. */
  function CheckSamba(ip: string, port: int, opendir: Opendir): bool {
    opendir(ServerUrl(ip, port)) >= 0
  }

  predicate StrictlyAscending(ports: seq<int>) {
    forall i, j :: 0 <= i < j < |ports| ==> ports[i] < ports[j]
  }

  /**
   The live ports among 445 and 4455..4464, in the order tried. Port 139 is
   never tried, a failure on one port does not stop the others, and a port
   counts whether or not it exposes any share.
   */
  method FindSambaPorts(ip: string, opendir: Opendir) returns (active: seq<int>)
    ensures StrictlyAscending(active)
    ensures |active| <= 11
    ensures forall p :: p in active <==> (p == 445 || 4455 <= p <= 4464) && CheckSamba(ip, p, opendir)
    ensures 139 !in active
  {
    active := [];
    if CheckSamba(ip, StandardPort, opendir) {
      active := active + [StandardPort];
    }
    var port := ExtraPortFirst;
    while port <= ExtraPortLast
      invariant ExtraPortFirst <= port <= ExtraPortLast + 1
      invariant |active| <= port - ExtraPortFirst + 1
      invariant StrictlyAscending(active)
      invariant forall i :: 0 <= i < |active| ==> active[i] < port
      invariant forall p :: p in active <==> (p == 445 || ExtraPortFirst <= p < port) && CheckSamba(ip, p, opendir)
    {
      if CheckSamba(ip, port, opendir) {
        active := active + [port];
      }
      port := port + 1;
    }
  }

  /** A server whose SMB service listens on the ports of `roots`, each listing the given root entries. */
  datatype Server = Server(ip: string, roots: map<int, seq<string>>)

  ghost predicate Serves(srv: Server, url: string) {
    exists p :: p in srv.roots && url == ServerUrl(srv.ip, p)
  }

  /** The directory handle such a server yields: non-negative exactly for the root URL of a listening port. */
  ghost function ServerOpendir(srv: Server): Opendir {
    url => if Serves(srv, url) then 3 else -1
  }

  /** The entries such a server lists at the root URL of a listening port; nothing elsewhere. */
  ghost function ServerReaddir(srv: Server): Readdir {
    url => if Serves(srv, url) then srv.roots[PortOf(srv, url)] else []
  }

  /** The listening port a served URL belongs to. */
  ghost function PortOf(srv: Server, url: string): (p: int)
    requires Serves(srv, url)
    ensures p in srv.roots && url == ServerUrl(srv.ip, p)
  {
    var p :| p in srv.roots && url == ServerUrl(srv.ip, p); p
  }

  /** Against such a server a port is live exactly when the server listens on it. */
  lemma LiveExactlyWhenListening(srv: Server)
    ensures forall p :: CheckSamba(srv.ip, p, ServerOpendir(srv)) <==> p in srv.roots
  {
    forall p
      ensures CheckSamba(srv.ip, p, ServerOpendir(srv)) <==> p in srv.roots
    {
      if Serves(srv, ServerUrl(srv.ip, p)) {
        var q :| q in srv.roots && ServerUrl(srv.ip, p) == ServerUrl(srv.ip, q);
        ServerUrlInjective(srv.ip, p, q);
      }
    }
  }

  /** The root URL of a listening port lists exactly that port's entries. */
  lemma ListingOfListeningPort(srv: Server, p: int)
    requires p in srv.roots
    ensures ServerReaddir(srv)(ServerUrl(srv.ip, p)) == srv.roots[p]
  {
    var url := ServerUrl(srv.ip, p);
    assert Serves(srv, url);
    ServerUrlInjective(srv.ip, p, PortOf(srv, url));
  }

  /**
   Liveness does not depend on shares: a listening port whose root lists no
   visible entry (so `ListShares` returns none) is still live, and so is still
   reported by `FindSambaPorts` when it is a candidate port.
   */
  lemma LiveWithoutShares(srv: Server, p: int)
    requires p in srv.roots
    requires Visible(srv.roots[p]) == []
    ensures CheckSamba(srv.ip, p, ServerOpendir(srv))
    ensures Visible(ServerReaddir(srv)(ServerUrl(srv.ip, p))) == []
  {
    ListingOfListeningPort(srv, p);
  }

  /** `smbc_dirent.name[0] == '.'`; an empty name has the terminating NUL there, so it is not hidden. */
  predicate Hidden(name: string) {
    |name| > 0 && name[0] == '.'
  }

  /** The entries that are not hidden, in listing order. */
  function Visible(entries: seq<string>): seq<string>
    decreases |entries|
  {
    if |entries| == 0 then []
    else
      var last := entries[|entries| - 1];
      Visible(entries[..|entries| - 1]) + (if Hidden(last) then [] else [last])
  }

  function Names(shares: seq<SambaShare>): (names: seq<string>)
    ensures |names| == |shares|
    ensures forall i :: 0 <= i < |shares| ==> names[i] == shares[i].name
  {
    seq(|shares|, i requires 0 <= i < |shares| => shares[i].name)
  }

  /** Exactly the hidden entries are dropped, each visible entry kept as often as it is listed. */
  lemma {:induction false} VisibleDropsExactlyHidden(entries: seq<string>, x: string)
    ensures multiset(Visible(entries))[x] == if Hidden(x) then 0 else multiset(entries)[x]
    decreases |entries|
  {
    if |entries| > 0 {
      var init := entries[..|entries| - 1];
      VisibleDropsExactlyHidden(init, x);
      assert entries == init + [entries[|entries| - 1]];
    }
  }

  /** Filtering keeps the listing order: it distributes over concatenation. */
  lemma {:induction false} VisibleKeepsOrder(a: seq<string>, b: seq<string>)
    ensures Visible(a + b) == Visible(a) + Visible(b)
    decreases |b|
  {
    if |b| == 0 {
      assert a + b == a;
    } else {
      var init := b[..|b| - 1];
      VisibleKeepsOrder(a, init);
      assert (a + b)[..|a + b| - 1] == a + init;
    }
  }

  /**
   The shares of one endpoint: the directory entries at the probe URL not
   starting with '.', in readdir order, each with the URL followed by its name
   as its path. A failed open yields no shares.
   */
  method ListShares(ip: string, port: int, opendir: Opendir, readdir: Readdir) returns (shares: seq<SambaShare>)
    ensures opendir(ServerUrl(ip, port)) < 0 ==> shares == []
    ensures opendir(ServerUrl(ip, port)) >= 0 ==> Names(shares) == Visible(readdir(ServerUrl(ip, port)))
    ensures forall i :: 0 <= i < |shares| ==>
              shares[i].path == ServerUrl(ip, port) + shares[i].name && !Hidden(shares[i].name)
  {
    var url := ServerUrl(ip, port);
    shares := [];
    var fd := opendir(url);
    if fd < 0 {
      return;
    }
    var entries := readdir(url);
    var i := 0;
    while i < |entries|
      invariant 0 <= i <= |entries|
      invariant Names(shares) == Visible(entries[..i])
      invariant forall j :: 0 <= j < |shares| ==> shares[j].path == url + shares[j].name && !Hidden(shares[j].name)
    {
      var name := entries[i];
      assert entries[..i + 1][..i] == entries[..i];
      if !Hidden(name) {
        shares := shares + [SambaShare(name, url + name)];
      }
      i := i + 1;
    }
    assert entries[..i] == entries;
  }
}
