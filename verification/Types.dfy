/** cni/pkg/types/types.go: what results and options share. */
module CniTypes {
  import opened Options
  import opened GoNet

  /** A destination, and the gateway if there is one. */
  datatype Route = Route(dst: IPNet, gw: Option<IP>)
}
