/** What a scan read from the cluster, as the rules see it. */
module Inventory {
  import opened PathWalk

  /** One object. A missing spec or status reads like an empty one. */
  datatype Row = Row(kind: string, ref: string, namespace: string, name: string,
                     labelKeys: set<string>, annotationKeys: set<string>,
                     spec: map<string, Json>, status: map<string, Json>, writtenAt: seq<string>)

  datatype Node = Node(row: Row, kubelet: string)

  datatype Crd = Crd(row: Row, served: seq<string>)

  /** versionLabel is the app.kubernetes.io/version label; the containers are given by their images. */
  datatype Workload = Workload(kind: string, namespace: string, name: string, versionLabel: string,
                               containers: seq<string>, initContainers: seq<string>)
  {
    function Ref(): string {
      kind + "/" + namespace + "/" + name
    }
  }

  datatype CollectionState = CollectionState(ok: bool, partial: bool, reason: string)

  const NODES := "nodes"
  const CRDS := "custom resource definitions"
  const STORAGE := "storage"
  const WORKLOADS := "workloads"

  /** The dynamic collectors record each kind they want in crs, crUnread or crNotServed. Two of them write
      here in turn, so a kind one failed to read and the other read is in both crs and crUnread. */
  datatype Inventory = Inventory(collected: map<string, CollectionState>,
                                 nodes: seq<Node>, crds: seq<Crd>, storageClasses: seq<Row>,
                                 workloads: seq<Workload>,
                                 crs: map<string, seq<Row>>, crUnread: map<string, string>, crNotServed: set<string>)
  {
    predicate Read(collector: string) {
      collector in collected && collected[collector].ok
    }

    function ReasonOf(collector: string): string {
      if collector in collected then collected[collector].reason else ""
    }
  }
}
