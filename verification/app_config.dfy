/** The immutable runtime configuration shared by both servers. Loading it
    from the environment is not part of this model; limits are naturals. */
module AppConfig {

  datatype Config = Config(
    host: string,
    tcpPort: nat,
    udpPort: nat,
    readTimeoutSeconds: nat,
    maxRequestLineBytes: nat,
    maxHeaderBytes: nat,
    staticDir: string)
}
