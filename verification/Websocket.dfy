/** socket/ws/websocket.h and socket/ws/frame.h: sizes and status codes. */
module Websocket {
  const WS_BUFFER_SIZE := 1024 * 1024 * 4
  const WS_HANDSHAKE_BUFFER_SIZE := 512
  const WS_FRAME_LENGTH_MIN := 2
  const WS_HEADER_SIZE := 2
  const WS_MASKING_KEY_LENGTH := 4
  const WS_CONTROL_MESSAGE_PAYLOAD_SIZE_MAX := 125
  const WS_CONTROL_MESSAGE_SIZE_MAX := WS_HEADER_SIZE + WS_CONTROL_MESSAGE_PAYLOAD_SIZE_MAX + WS_MASKING_KEY_LENGTH
  const WS_CODE_SUCCESS := 1000
  const WS_CODE_MOVED := 1001
  const WS_CODE_ERROR_PROTOCOL := 1002
  const WS_CODE_ERROR_MESSAGE_TYPE := 1003
  const WS_CODE_ERROR_MESSAGE_VALUE := 1007
  const WS_CODE_POLICY_VIOLATION := 1008
  const WS_CODE_POLICY_MESSAGE_TO_BIG := 1009
  const WS_CODE_CLIENT_MISSING_EXTENSION := 1010
  const WS_CODE_SERVER_ERROR := 1011
  const WS_CODE_PROTOCOL_MIN := 1000
  const WS_CODE_PROTOCOL_MAX := 2999
  const WS_CODE_PUBLIC_MIN := 3000
  const WS_CODE_PUBLIC_MAX := 3999
  const WS_CODE_PRIVATE_MIN := 4000
  const WS_CODE_PRIVATE_MAX := 4999
}
