module Endpoints {
  datatype Endpoint = Endpoint(ip: string, port: int)
}
