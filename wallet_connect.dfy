/** The wallet widget in the header: the shortened address, the network
    badge, the offer to switch to BSC, and the connect button that picks
    the first injected connector. */
module WalletConnect {

  import opened Common

  // ---------------------------------------------------------------------
  // Shortened address
  // ---------------------------------------------------------------------

  /** `String.prototype.slice(0, n)` for `n >= 0`: clamps to the length. */
  function Head(s: string, n: nat): (r: string)
    ensures |r| == if n <= |s| then n else |s|
    ensures r <= s
  {
    if n <= |s| then s[..n] else s
  }

  /** `String.prototype.slice(-n)` for `n > 0`: the last `n` characters, or
      all of a shorter string. */
  function Tail(s: string, n: nat): (r: string)
    ensures |r| == if n <= |s| then n else |s|
    ensures r == s[|s| - |r|..]
  {
    if n <= |s| then s[|s| - n..] else s
  }

  /** `formatAddress`: empty for a missing or empty address, otherwise the
      first six characters, an ellipsis, and the last four. */
  function FormatAddress(address: Option<string>): (r: string)
    ensures !Truthy(address) ==> r == ""
    ensures Truthy(address) ==> r == Head(address.value, 6) + "..." + Tail(address.value, 4)
  {
    if !Truthy(address) then "" else Head(address.value, 6) + "..." + Tail(address.value, 4)
  }

  /** A full 42-character address shortens to 13 characters that keep its
      first six and last four characters around the ellipsis. */
  lemma FormatAddressShape(a: string)
    requires |a| >= 10
    ensures var r := FormatAddress(Some(a));
      && |r| == 13
      && r[..6] == a[..6] && r[6..9] == "..." && r[9..] == a[|a| - 4..]
  {
    var r := FormatAddress(Some(a));
    assert r == a[..6] + "..." + a[|a| - 4..];
    assert r[..6] == a[..6];
    assert r[6..9] == "...";
    assert r[9..] == a[|a| - 4..];
  }

  /** Two addresses with the same shortened form agree on their first six
      and last four characters: the shortening keeps exactly those. */
  lemma FormatAddressKeepsEnds(a: string, b: string)
    requires |a| >= 10 && |b| >= 10
    ensures FormatAddress(Some(a)) == FormatAddress(Some(b)) <==>
      a[..6] == b[..6] && a[|a| - 4..] == b[|b| - 4..]
  {
    FormatAddressShape(a);
    FormatAddressShape(b);
    var ra, rb := FormatAddress(Some(a)), FormatAddress(Some(b));
    if a[..6] == b[..6] && a[|a| - 4..] == b[|b| - 4..] {
      assert ra == a[..6] + "..." + a[|a| - 4..];
      assert rb == b[..6] + "..." + b[|b| - 4..];
    }
  }

  lemma FormatAddressExamples()
    ensures FormatAddress(None) == ""
    ensures FormatAddress(Some("")) == ""
    ensures FormatAddress(Some("0x12")) == "0x12...0x12"
  {
    var short := "0x12";
    assert Head(short, 6) == short && Tail(short, 4) == short;
  }

  // ---------------------------------------------------------------------
  // Network badge and switch offer
  // ---------------------------------------------------------------------

  predicate IsBscNetwork(chainId: nat)
  {
    chainId == BscId || chainId == BscTestnetId
  }

  /** The badge text of a connected wallet. */
  function NetworkBadge(chainId: nat): (badge: string)
    ensures badge == "BSC Mainnet" <==> chainId == BscId
    ensures badge == "BSC Testnet" <==> chainId == BscTestnetId
    ensures badge == "Wrong Network" <==> !IsBscNetwork(chainId)
  {
    if IsBscNetwork(chainId) then
      if chainId == BscId then "BSC Mainnet" else "BSC Testnet"
    else "Wrong Network"
  }

  /** A connector the wallet library offers. */
  datatype Connector = Connector(id: string, kind: string)

  /** The connector a click on the connect button uses: the first injected
      one; with none, the click does nothing. */
  function FindInjected(connectors: seq<Connector>): (r: Option<Connector>)
    ensures r.None? <==> forall c :: c in connectors ==> c.kind != "injected"
    ensures r.Some? ==> exists i :: 0 <= i < |connectors| && connectors[i] == r.value && r.value.kind == "injected"
                          && forall j :: 0 <= j < i ==> connectors[j].kind != "injected"
  {
    if |connectors| == 0 then None
    else if connectors[0].kind == "injected" then Some(connectors[0])
    else
      var r := FindInjected(connectors[1..]);
      assert forall c :: c in connectors ==> c == connectors[0] || c in connectors[1..];
      if r.Some? then
        ghost var i :| 0 <= i < |connectors[1..]| && connectors[1..][i] == r.value
                       && forall j :: 0 <= j < i ==> connectors[1..][j].kind != "injected";
        assert connectors[i + 1] == r.value;
        assert forall j :: 0 <= j < i + 1 ==> connectors[j].kind != "injected" by {
          forall j | 0 <= j < i + 1 ensures connectors[j].kind != "injected" {
            if j > 0 { assert connectors[j] == connectors[1..][j - 1]; }
          }
        }
        r
      else r
  }

  /** What the header widget shows. */
  datatype Widget =
    | ConnectedWidget(badge: string, shortAddress: string, switchOffer: Option<nat>)
    | ConnectButton(caption: string, disabled: bool)

  /** The widget: when connected, the badge, the shortened address and, off
      BSC, a button asking for BSC mainnet; otherwise the connect button,
      disabled while a connection is pending. */
  function WalletWidget(isConnected: bool, chainId: nat, address: Option<string>, isPending: bool): (w: Widget)
    ensures w.ConnectedWidget? <==> isConnected
    ensures w.ConnectedWidget? ==> w.badge == NetworkBadge(chainId) && w.shortAddress == FormatAddress(address)
    ensures w.ConnectedWidget? ==> (w.switchOffer.Some? <==> !IsBscNetwork(chainId))
    ensures w.ConnectedWidget? && w.switchOffer.Some? ==> w.switchOffer.value == BscId
    ensures w.ConnectButton? ==> w.disabled == isPending
    ensures w.ConnectButton? ==> (w.caption == "Connecting..." <==> isPending)
    ensures w.ConnectButton? && !isPending ==> w.caption == "Connect Wallet"
  {
    if isConnected then
      ConnectedWidget(NetworkBadge(chainId), FormatAddress(address),
                      if IsBscNetwork(chainId) then None else Some(BscId))
    else
      ConnectButton(if isPending then "Connecting..." else "Connect Wallet", isPending)
  }

  /** Accepting the switch offer lands on a network the badge accepts, and
      the offer is then withdrawn. */
  lemma SwitchOfferSettles(chainId: nat, address: Option<string>)
    requires WalletWidget(true, chainId, address, false).switchOffer.Some?
    ensures var target := WalletWidget(true, chainId, address, false).switchOffer.value;
      && NetworkBadge(target) == "BSC Mainnet"
      && WalletWidget(true, target, address, false).switchOffer.None?
  {
  }

  lemma ConnectExamples()
    ensures FindInjected([Connector("wc", "walletConnect"), Connector("mm", "injected"), Connector("tw", "injected")])
            == Some(Connector("mm", "injected"))
    ensures FindInjected([Connector("wc", "walletConnect")]) == None
  {
    var cs := [Connector("wc", "walletConnect"), Connector("mm", "injected"), Connector("tw", "injected")];
    assert cs[1..] == [Connector("mm", "injected"), Connector("tw", "injected")];
    var one := [Connector("wc", "walletConnect")];
    assert one[1..] == [];
  }
}
