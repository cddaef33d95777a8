/** The application shell: the two network tabs, the tab chosen at start-up,
    the tab switch that also asks the wallet to change chain, and which
    dashboard the main area shows. */
module App {

  import opened Common

  /** A network tab: its identifier, its title and the chain it targets. */
  datatype Network = Network(id: string, title: string, chainId: nat)

  /** The tabs, in display order. */
  const Networks: seq<Network> := [Network("eth", "Ethereum", MainnetId), Network("bsc", "BSC", BscId)]

  /** `Array.prototype.find` by identifier: the first tab with that id. */
  function FindNetwork(nets: seq<Network>, id: string): (r: Option<Network>)
    ensures r.Some? <==> exists i :: 0 <= i < |nets| && nets[i].id == id
    ensures r.Some? ==> r.value in nets && r.value.id == id
    ensures r.Some? ==> exists i :: 0 <= i < |nets| && nets[i] == r.value
                          && forall j :: 0 <= j < i ==> nets[j].id != id
  {
    if |nets| == 0 then None
    else if nets[0].id == id then Some(nets[0])
    else
      var r := FindNetwork(nets[1..], id);
      if r.Some? then
        ghost var i :| 1 <= i + 1 <= |nets| && 0 <= i < |nets[1..]| && nets[1..][i] == r.value
                       && forall j :: 0 <= j < i ==> nets[1..][j].id != id;
        assert nets[i + 1] == r.value;
        assert forall j :: 0 <= j < i + 1 ==> nets[j].id != id by {
          forall j | 0 <= j < i + 1 ensures nets[j].id != id {
            if j > 0 { assert nets[j] == nets[1..][j - 1]; }
          }
        }
        r
      else
        assert forall i :: 1 <= i < |nets| ==> nets[i] == nets[1..][i - 1];
        r
  }

  /** The tab identifiers and their chains are pairwise distinct, and each
      identifier finds its own tab. */
  lemma NetworksWellFormed()
    ensures forall i, j :: 0 <= i < j < |Networks| ==> Networks[i].id != Networks[j].id
    ensures forall i, j :: 0 <= i < j < |Networks| ==> Networks[i].chainId != Networks[j].chainId
    ensures FindNetwork(Networks, "eth") == Some(Networks[0]) && Networks[0].chainId == MainnetId
    ensures FindNetwork(Networks, "bsc") == Some(Networks[1]) && Networks[1].chainId == BscId
  {
  }

  /** The start-up tab: Ethereum when already on mainnet, BSC otherwise
      (also when no chain is known). */
  function InitialTab(chain: Option<nat>): (tab: string)
    ensures tab == "eth" <==> chain == Some(MainnetId)
    ensures tab == "eth" || tab == "bsc"
  {
    if chain == Some(MainnetId) then "eth" else "bsc"
  }

  /** The start-up tab is always a real tab, and its chain is the connected
      one whenever that chain has a tab. */
  lemma InitialTabMatchesChain(chain: Option<nat>)
    ensures FindNetwork(Networks, InitialTab(chain)).Some?
    ensures chain.Some? && (chain.value == MainnetId || chain.value == BscId) ==>
      FindNetwork(Networks, InitialTab(chain)).value.chainId == chain.value
  {
    NetworksWellFormed();
  }

  /** The chain switch a click on a tab asks for: only for a known tab, only
      when connected with a switch function available, and only when the
      current chain (possibly unknown) differs from the tab's chain. */
  function SwitchRequestFor(networkId: string, chain: Option<nat>, isConnected: bool, canSwitch: bool): (r: seq<nat>)
    ensures |r| <= 1
    ensures r != [] <==>
      FindNetwork(Networks, networkId).Some? && isConnected && canSwitch
      && chain != Some(FindNetwork(Networks, networkId).value.chainId)
    ensures r != [] ==> r[0] == FindNetwork(Networks, networkId).value.chainId
  {
    var target := FindNetwork(Networks, networkId);
    if target.Some? && chain != Some(target.value.chainId) && isConnected && canSwitch then
      [target.value.chainId]
    else []
  }

  /** Once the wallet has followed a request, clicking the same tab again
      asks for nothing. */
  lemma SwitchSettles(networkId: string, chain: Option<nat>)
    requires SwitchRequestFor(networkId, chain, true, true) != []
    ensures SwitchRequestFor(networkId, Some(SwitchRequestFor(networkId, chain, true, true)[0]), true, true) == []
  {
  }

  /** What the main area shows. */
  datatype MainView = ConnectPrompt | BscDashboards | EthDashboard

  /** Disconnected: the prompt; connected: the BSC pair on the "bsc" tab and
      the Ethereum dashboard on every other tab identifier. */
  function MainContent(isConnected: bool, activeTab: string): (v: MainView)
    ensures v == ConnectPrompt <==> !isConnected
    ensures v == BscDashboards <==> isConnected && activeTab == "bsc"
    ensures v == EthDashboard <==> isConnected && activeTab != "bsc"
  {
    if !isConnected then ConnectPrompt
    else if activeTab == "bsc" then BscDashboards
    else EthDashboard
  }

  /** The green dot on a tab: connected and on that tab's chain. */
  predicate OnChainDot(net: Network, chain: Option<nat>, isConnected: bool)
  {
    isConnected && chain == Some(net.chainId)
  }

  /** At most one tab carries the dot. */
  lemma AtMostOneDot(chain: Option<nat>, isConnected: bool, i: nat, j: nat)
    requires i < j < |Networks|
    ensures !(OnChainDot(Networks[i], chain, isConnected) && OnChainDot(Networks[j], chain, isConnected))
  {
    NetworksWellFormed();
  }

  /** The shell's own state: the selected tab and the chain-switch requests
      handed to the wallet so far. */
  class AppState {
    var activeTab: string
    var switchRequests: seq<nat>

    constructor (chain: Option<nat>)
      ensures activeTab == InitialTab(chain)
      ensures switchRequests == []
    {
      activeTab := InitialTab(chain);
      switchRequests := [];
    }

    /** `handleTabSwitch`: the tab is always selected, even an unknown one;
        a chain switch is requested as `SwitchRequestFor` says. */
    method HandleTabSwitch(networkId: string, chain: Option<nat>, isConnected: bool, canSwitch: bool)
      modifies this
      ensures activeTab == networkId
      ensures switchRequests == old(switchRequests) + SwitchRequestFor(networkId, chain, isConnected, canSwitch)
    {
      activeTab := networkId;
      var target := FindNetwork(Networks, networkId);
      if target.Some? && chain != Some(target.value.chainId) && isConnected && canSwitch {
        switchRequests := switchRequests + [target.value.chainId];
      }
    }

    /** The tab whose description the header shows. */
    function CurrentNetwork(): (r: Option<Network>)
      reads this
      ensures r.Some? ==> r.value.id == activeTab && r.value in Networks
      ensures r.None? ==> forall n :: n in Networks ==> n.id != activeTab
    {
      FindNetwork(Networks, activeTab)
    }
  }

  /** Switching tab while connected on another chain: the view and the
      requested chain agree. */
  lemma SwitchToBscTab(chain: Option<nat>)
    requires chain != Some(BscId)
    ensures MainContent(true, "bsc") == BscDashboards
    ensures SwitchRequestFor("bsc", chain, true, true) == [BscId]
    ensures SwitchRequestFor("bsc", chain, false, true) == []
  {
    NetworksWellFormed();
  }

  /** An unknown tab identifier is still selected, requests nothing, and
      shows the Ethereum dashboard. */
  lemma UnknownTab(networkId: string, chain: Option<nat>, isConnected: bool, canSwitch: bool)
    requires networkId != "eth" && networkId != "bsc"
    ensures SwitchRequestFor(networkId, chain, isConnected, canSwitch) == []
    ensures isConnected ==> MainContent(isConnected, networkId) == EthDashboard
  {
    assert forall i :: 0 <= i < |Networks| ==> Networks[i].id != networkId;
  }
}
