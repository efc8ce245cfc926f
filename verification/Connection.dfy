/** The states of a memcached connection (netshell/mcshell.cc). */
module Connection {

  datatype ConnState = Read | NRead | Write | Close

  datatype DmState = DmStop | DmGoOn
}
